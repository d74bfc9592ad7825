# SSDB hash command layer, modelled in Dafny

This project models the hash command handlers of SSDB 1.9.2
(`src/proc_hash.cpp`) and the constant tables they depend on
(`src/ssdb/const.h`).

Each handler (`hexists`, `hset`, `hsetnx`, `hget`, `hsize`, `hmset`, `hdel`,
`hmget`, `hgetall`, `hkeys`, `hvals`, `hscan`, `hincr`) is a pure function.
It takes three inputs:

- the request token list;
- an abstract storage engine;
- for the handlers that parse numbers, the abstract integer parsers.

It returns a reply, which is either an error or the values the source hands
to its `reply_*` helpers and `push_back` calls.

The storage engine is a record of total functions, one per engine call.
Each returns the engine's tri-state status (negative: error, 0: empty or
false, positive: present or true) together with the values the call writes
through its out-parameters. The `hscan` call is handed the reply built so
far ("ok", "0") and returns the reply as it leaves it, since the source
passes the reply vector itself to the engine. Nothing is assumed about what
the engine does; the one property that needs an assumption about it
(`HashProperties.HScanReplyPrefix`) names that assumption in its `requires`.

Modules:

- `Wrappers`: `Option` and `Result`.
- `ByteStrings`: bytes, ASCII lower-casing (`strtolower`), and the unsigned
  lexicographic order `Below` by which a `std::map<std::string, _>` is
  iterated.
- `OrderedMap`:
  - the ascending listing of a map's entries (`Entries`), proved to be the
    only strictly ascending listing (`EntriesUnique`);
  - the map built by repeated `kvs[key] = val` (`Assign`, last write wins);
  - the set built by repeated `insert` (`Collect`).
- `Protocol`: the request, the engine, the parsers, the error kinds and the
  reply; pairs laid out as alternating tokens (`Flatten` / `Pairs`).
- `HScanOptions`: the `hscan` option loop (`Parse`), checked against a
  declarative reference (`WellFormed`, `LastValue`).
- `ProcHash`: the handlers.
- `HashProperties`: properties relating several requests, or a handler to
  an independent description of its output.
- `Const`, `BinlogTypes`, `BinlogCommands`: the tag and code tables of
  `const.h` as closed enumerations with their byte encodings.

## Model

| member | source | states |
|---|---|---|
| ProcHash.HExists | ssdb-1.9.2/src/proc_hash.cpp:11-29 | Fewer than 3 tokens is an arity error. A negative status is an error reply carrying that status. Otherwise the reply is a boolean, true exactly when the status is positive and the engine found the field. |
| ProcHash.AddedReply | ssdb-1.9.2/src/proc_hash.cpp:143-149 | The reply shared by `hset` and `hsetnx`: an error exactly for a negative status, false for status 0, and the engine's added flag for a positive status. |
| ProcHash.HSet | ssdb-1.9.2/src/proc_hash.cpp:136-152 | Fewer than 4 tokens is an arity error. Otherwise the reply is an error exactly when the status is negative, and that error carries the status; false on status 0, and the added flag on a positive status. |
| ProcHash.HSetNX | ssdb-1.9.2/src/proc_hash.cpp:154-170 | The same mapping as `hset`, error status included, applied to the engine's `hsetnx` call. |
| HashProperties.HSetNXIsHSetShaped | ssdb-1.9.2/src/proc_hash.cpp:136-170 | `hsetnx` replies exactly what `hset` would reply if the engine's `hset` behaved as its `hsetnx`: the two handlers differ only in the engine call. |
| HashProperties.HExistsAgreesWithHGet | ssdb-1.9.2/src/proc_hash.cpp:11-29 | `hexists` and `hget` fail together with the same error; otherwise `hexists` answers true exactly when the status is positive and `hget` reports a hit. |
| ProcHash.HGet | ssdb-1.9.2/src/proc_hash.cpp:172-191 | Fewer than 3 tokens is an arity error. A negative status is an error. Any non-negative status gives a lookup reply carrying the engine's value, marked found exactly when the engine's found flag is set. |
| HashProperties.HGetDecidedByFoundFlag | ssdb-1.9.2/src/proc_hash.cpp:180-188 | Two engines that give the same value and found flag, each with some non-negative status, produce the same `hget` reply: the status size is ignored. |
| ProcHash.HSize | ssdb-1.9.2/src/proc_hash.cpp:121-134 | Fewer than 2 tokens is an arity error. A negative status is an error. Otherwise the reply is the status and the engine's unsigned size. |
| ProcHash.HMSet | ssdb-1.9.2/src/proc_hash.cpp:32-55 | Fewer than 4 tokens or an odd count is rejected with the error text "wrong number of arguments for 'hmset' command" and no engine call. Otherwise the engine gets the field map. A negative status is an error; any other status replies the integer 1, not the number of fields. |
| ProcHash.HMSetFields | ssdb-1.9.2/src/proc_hash.cpp:38-45 | The map's keys are exactly the tokens at positions 2, 4, 6, and so on. A field's last occurrence binds it to the token that follows. The map has between one entry and one entry per pair. |
| OrderedMap.Assign | ssdb-1.9.2/src/proc_hash.cpp:38-45 | The map built by assigning pairs in turn holds exactly the keys of the pairs, each bound to the value of its last pair. It never has more entries than there are pairs. |
| HashProperties.HMSetLastWriteWins | ssdb-1.9.2/src/proc_hash.cpp:38-45 | Appending a field/value pair to a well-shaped `hmset` request updates that field in the map to the new value and leaves every other entry unchanged. |
| HashProperties.LastPairBound | ssdb-1.9.2/src/proc_hash.cpp:41-44 | The final pair of an `hmset` request always reaches the engine, with its own value. |
| HashProperties.HMSetRepeatedPairCollapses | ssdb-1.9.2/src/proc_hash.cpp:38-47 | Repeating the final field/value pair of an `hmset` request changes neither the engine call nor the reply. |
| ProcHash.HDel | ssdb-1.9.2/src/proc_hash.cpp:57-76 | Fewer than 3 tokens is an arity error. Otherwise the engine gets the set of fields named. The reply is an error exactly for a negative status, and otherwise the engine's deleted count. |
| OrderedMap.Collect | ssdb-1.9.2/src/proc_hash.cpp:63-66 | The set built by inserting tokens in turn has exactly the tokens as members. Its size is at most the token count, and equals it exactly when no token repeats. This set, built from the field tokens, is what `hdel` hands the engine. |
| HashProperties.HDelDependsOnFieldSet | ssdb-1.9.2/src/proc_hash.cpp:63-74 | Two `hdel` requests for the same name whose field tokens form the same set give the same reply. Order and repetition of fields do not matter. |
| HashProperties.HDelRepeatedField | ssdb-1.9.2/src/proc_hash.cpp:63-74 | Naming an already named field again in `hdel` changes nothing: the field is deleted and counted once. |
| ProcHash.Requested | ssdb-1.9.2/src/proc_hash.cpp:98-108 | The pairs `hmget` replies: each is a requested key that the result map holds, with its value, and there are at most as many pairs as requested keys. If every key was found, there is one pair per key in request order. If none was found, there are no pairs. |
| HashProperties.RequestedConcat | ssdb-1.9.2/src/proc_hash.cpp:98-108 | The pairs for a concatenated key list are the pairs for the first part followed by the pairs for the second, so the reply follows request order. |
| HashProperties.RequestedMultiplicity | ssdb-1.9.2/src/proc_hash.cpp:98-108 | A field appears among the replied pairs as often as it was requested if the engine found it, and never otherwise. |
| ProcHash.HMGet | ssdb-1.9.2/src/proc_hash.cpp:78-119 | Fewer than 3 tokens is an arity error. Status 1 replies "ok" followed by the requested pairs, in request order rather than the engine's storage order. Status 0 replies just "ok". Every other status is an error carrying that status. |
| HashProperties.HMGetReplySplits | ssdb-1.9.2/src/proc_hash.cpp:98-108 | With status 1, splitting the requested fields into two parts splits the reply: "ok", the tokens for the first part, then the tokens for the second. |
| HashProperties.HMGetAllFound | ssdb-1.9.2/src/proc_hash.cpp:94-108 | When the engine answers 1 and found every requested field, the reply is "ok" and then each requested field followed by its value. The fields come in request order, repeats included. |
| ProcHash.HGetAll | ssdb-1.9.2/src/proc_hash.cpp:194-219 | Fewer than 2 tokens is an arity error. A negative status is an error. Status 0 replies just "ok". A positive status replies "ok" followed by the map's entries in ascending field order, one field and one value per entry. |
| OrderedMap.Entries | ssdb-1.9.2/src/proc_hash.cpp:211-214 | The listing of a map has one entry per key, each with the map's value. Every key occurs in it, and fields are strictly ascending in byte order. |
| OrderedMap.EntriesUnique | ssdb-1.9.2/src/proc_hash.cpp:211-214 | Any strictly ascending listing that covers a map's keys with their values is that map's listing. |
| OrderedMap.Ascending | ssdb-1.9.2/src/proc_hash.cpp:211-214 | The keys of a finite set, listed once each in strictly ascending order. |
| HashProperties.HGetAllIsAscendingListing | ssdb-1.9.2/src/proc_hash.cpp:199-219 | Given a positive status, `hgetall` replies "ok" and then any strictly ascending, complete and value-correct listing of the engine's map. |
| ProcHash.HKeys | ssdb-1.9.2/src/proc_hash.cpp:268-295 | Fewer than 5 tokens is an arity error. On a positive status the reply is "ok" followed by exactly the map's fields, strictly ascending. Status 0 replies "ok" and a negative status is an error. |
| ProcHash.HVals | ssdb-1.9.2/src/proc_hash.cpp:297-323 | Fewer than 5 tokens is an arity error. On a positive status the reply is "ok" and one value of the map per field. Status 0 replies "ok" and a negative status is an error. |
| HashProperties.KeysProjectGetAll | ssdb-1.9.2/src/proc_hash.cpp:274-291 | `hkeys` gives the same error as `hgetall` for the same name, or "ok" followed by the field of each `hgetall` pair, in the same order. |
| HashProperties.ValuesProjectGetAll | ssdb-1.9.2/src/proc_hash.cpp:303-320 | `hvals` gives the same error as `hgetall` for the same name, or "ok" followed by the value of each `hgetall` pair, in the same order. |
| HashProperties.KeysAndValuesIgnoreRange | ssdb-1.9.2/src/proc_hash.cpp:268-275 | Two `hkeys` (or `hvals`) requests for the same name get the same reply, whatever their range and limit tokens. |
| ByteStrings.LowerMatchesIgnoringCase | ssdb-1.9.2/src/proc_hash.cpp:240-245 | For a lower-case word, the lower-cased token equals the word exactly when the token spells it in any mix of cases. |
| HashProperties.OptionNamesIgnoreCase | ssdb-1.9.2/src/proc_hash.cpp:240-245 | A token is taken as `match`, or as `count`, exactly when it spells that name in any mix of cases. |
| HScanOptions.OptionsDefined | ssdb-1.9.2/src/proc_hash.cpp:238-253 | The option lists the model answers. Every list of even length is among them. `OptionsDefinedExactly` states the whole domain. |
| HScanOptions.OptionsDefinedExactly | ssdb-1.9.2/src/proc_hash.cpp:238-253 | A list is answered exactly when the loop never reads past the end of the request. Reading past the end happens when every earlier option is accepted and the last token is a lone `match` or `count`. |
| HScanOptions.Parse | ssdb-1.9.2/src/proc_hash.cpp:235-253 | The option loop either yields scan arguments or fails with an invalid integer or a syntax error; which error is fixed by `ParseFirstFault`. |
| HScanOptions.LastValue | ssdb-1.9.2/src/proc_hash.cpp:239-244 | None exactly when no option name spells the given name; otherwise the value after a name spelling it that no later name position spells again. |
| HScanOptions.ParseFirstFault | ssdb-1.9.2/src/proc_hash.cpp:239-252 | The loop fails exactly when some option is the first it rejects (every earlier option being `match`, or `count` with a parsable value), and then with that option's error: a syntax error for an unknown name, an invalid integer for an unparsable `count` value, whatever faults follow. |
| HScanOptions.ParseMeaning | ssdb-1.9.2/src/proc_hash.cpp:235-253 | The loop succeeds exactly when every name is `match` or `count` in some case and every `count` value parses. On success the pattern is the value of the last `match`, falling back to the starting one. The limit is the parsed value of the last `count`, falling back likewise, so a later option overrides an earlier one. |
| HScanOptions.ParseErrorKind | ssdb-1.9.2/src/proc_hash.cpp:243-252 | If every `count` value parses, a failure is a syntax error, caused by an unknown name. If every name is known, a failure is an invalid integer, caused by a `count` value. |
| ProcHash.HScan | ssdb-1.9.2/src/proc_hash.cpp:221-265 | Fewer than 3 tokens is an arity error, and a cursor that is not an unsigned integer is an invalid-integer error. An option error is returned before the engine is called. The engine is handed the reply "ok", "0"; a negative status is an error with no other tokens, and otherwise the reply is the token list the engine returns. |
| HashProperties.HScanReplyPrefix | ssdb-1.9.2/src/proc_hash.cpp:254-257 | For an engine whose scan only appends to the reply it is handed, a successful `hscan` reply starts with "ok", "0". |
| HashProperties.HScanEngineArguments | ssdb-1.9.2/src/proc_hash.cpp:228-263 | With a valid cursor, malformed options are rejected before the engine. Well-formed options hand the engine the cursor token, the last `match` value (default "*"), the last `count` value (default 10) and the reply "ok", "0". |
| HashProperties.HScanDefaults | ssdb-1.9.2/src/proc_hash.cpp:235-236 | A bare `hscan name cursor` scans with pattern "*" and limit 10. |
| ProcHash.HIncr | ssdb-1.9.2/src/proc_hash.cpp:345-364 | Fewer than 4 tokens is an arity error. A delta that is not a signed 64-bit integer is an invalid-integer error before any engine call. Otherwise the engine receives the parsed delta. A negative status is an error, and any other status replies the status and the engine's new value. |
| HashProperties.HIncrRejectsBeforeEngine | ssdb-1.9.2/src/proc_hash.cpp:349-353 | An unparsable delta gives the invalid-integer error whatever the engine, so the engine is not consulted. |
| Const.KeyLenMax | ssdb-1.9.2/src/ssdb/const.h:10 | The bound on container-name length is 255. |
| Const.Tag | ssdb-1.9.2/src/ssdb/const.h:19-39 | The tag byte of each kind. Only `SYNCLOG` has tag 1; every other tag is an ASCII letter. A tag is lower case exactly for the data-row kinds (`KV`, `HASH`, `ZSET`, `ZSCORE`, `QUEUE`). |
| Const.KindOfTag | ssdb-1.9.2/src/ssdb/const.h:17-43 | Decoding a tag byte yields a kind whose tag is that byte, reading the shared 'S' as the set-size kind. |
| Const.TagRoundTrip | ssdb-1.9.2/src/ssdb/const.h:19-39 | Decoding any kind's tag gives back that kind, up to the one alias between item and set size. |
| Const.TagInjectiveUpToAlias | ssdb-1.9.2/src/ssdb/const.h:19-39 | Two kinds share a tag byte exactly when they are the same kind once item and set size are identified. |
| Const.ItemSharesSSizeTag | ssdb-1.9.2/src/ssdb/const.h:26-29 | Item and set size are different kinds with the same byte 'S'. |
| Const.HashTagsExclusive | ssdb-1.9.2/src/ssdb/const.h:21-39 | The hash row tag 'h' and the hash size tag 'H' differ, and each belongs to no other kind. |
| Const.PrefixRange | ssdb-1.9.2/src/ssdb/const.h:41-42 | The minimum prefix is the hash tag and the maximum is the sorted-set tag. A tag lies within that range exactly for hash, key-value, queue and sorted-set rows, and the score tag 'z' lies above it. |
| BinlogTypes.TypeCode | ssdb-1.9.2/src/ssdb/const.h:47-51 | The code of each replication type; every code is at most 4. |
| BinlogTypes.TypeOfCode | ssdb-1.9.2/src/ssdb/const.h:45-52 | Decoding a replication-type byte yields a type whose code is that byte. |
| BinlogTypes.TypeCodesDistinct | ssdb-1.9.2/src/ssdb/const.h:47-51 | The type codes round-trip, are pairwise distinct, and a byte decodes exactly when it is 0 to 4. |
| BinlogCommands.CommandCode | ssdb-1.9.2/src/ssdb/const.h:56-76 | The code of each binlog command; every code is at most 19, and 9 is never used. |
| BinlogCommands.CommandOfCode | ssdb-1.9.2/src/ssdb/const.h:54-77 | Decoding a command byte yields a command whose code is that byte. |
| BinlogCommands.CommandCodesDistinct | ssdb-1.9.2/src/ssdb/const.h:56-76 | The command codes round-trip and are pairwise distinct. A byte decodes exactly when it is at most 19 and not 9. The hash mutations are exactly codes 3 and 4. |

## Left out

- The storage engine behind `serv->ssdb` is an abstract parameter. Its
  behaviour (wrong-type rejection, 64-bit overflow checks in `hincr`,
  glob matching and cursor advancement in `hscan`, the meaning of the
  statuses it returns) is not modelled.
- `proc_hincrbyfloat` is not modelled: it parses and formats `long double`
  values, which is floating point.
- Network plumbing (`NetworkServer`, `Link`, `Response`) and the exact text
  written by `CHECK_NUM_PARAMS`, `reply_err_return` and the `reply_*` helpers
  are not modelled. An arity failure is the error `TooFewParams(n)`, and a
  reply records the helper's arguments.
- `Bytes::Uint64` and `Bytes::Int64` are abstract parsers returning `None`
  where the source sees `errno == EINVAL`. The model does not describe which
  strings parse, nor the other `errno` values the source does not test.
- ProcHash.HScan: requires, for a request with a valid cursor, that the
  option list is never read past its end (`HScanDefined`). An odd option
  list whose last name, reached without an earlier error, is `match` or
  `count` makes the source dereference past `req.end()`, which is undefined
  behaviour.
- The RDB length constants and `SSDB_SCORE_WIDTH` are not modelled: the
  hash layer does not use them.
- The `SYNCLOG` tag (byte 1) is encoded, but the model says nothing about its
  use by replication.
- ProcHash.HVals: states that each value belongs to the map, and the
  value-for-field order only through `HashProperties.ValuesProjectGetAll`.
- ProcHash.HMGet: any status other than 0 and 1, including values above 1,
  is an error reply, as the code's final branch does. The engine is not
  known to return such values.
