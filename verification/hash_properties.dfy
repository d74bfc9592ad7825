/**
  Properties that relate several calls of the hash handlers, or a handler
  to an independent description of what it should do.
 */
module HashProperties {
  import opened Wrappers
  import opened ByteStrings
  import opened OrderedMap
  import opened Protocol
  import opened HScanOptions
  import opened ProcHash

  // ---------------------------------------------------------------------------
  // hmset
  // ---------------------------------------------------------------------------

  lemma PairsAppend(ts: seq<Bytes>, f: Bytes, v: Bytes)
    requires |ts| % 2 == 0
    ensures Pairs(ts + [f, v]) == Pairs(ts) + [(f, v)]
  {
    var a := Pairs(ts + [f, v]);
    var b := Pairs(ts) + [(f, v)];
    assert |a| == |b|;
    forall i | 0 <= i < |a|
      ensures a[i] == b[i]
    {
      if i < |ts| / 2 {
        assert a[i] == ((ts + [f, v])[2 * i], (ts + [f, v])[2 * i + 1]);
      }
    }
  }

  /**
    Appending one more field/value pair to an `hmset` request binds that
    field to that value in the engine's map, whatever earlier pairs said,
    and leaves every other field as it was: the last write wins.
   */
  lemma HMSetLastWriteWins(req: Request, f: Bytes, v: Bytes)
    requires HMSetShapeOk(req)
    ensures HMSetShapeOk(req + [f, v])
    ensures HMSetFields(req + [f, v]) == HMSetFields(req)[f := v]
  {
    assert (req + [f, v])[2..] == req[2..] + [f, v];
    PairsAppend(req[2..], f, v);
    var ps := Pairs(req[2..]) + [(f, v)];
    assert ps[..|ps| - 1] == Pairs(req[2..]);
  }

  /**
    Naming a field twice with the same value sends the engine the same map
    as naming it once, so it is written, and counted, once.
   */
  lemma HMSetRepeatedPairCollapses(req: Request, f: Bytes, v: Bytes, db: Engine)
    requires HMSetShapeOk(req + [f, v])
    ensures HMSet(req + [f, v] + [f, v], db) == HMSet(req + [f, v], db)
  {
    var once := req + [f, v];
    var twice := once + [f, v];
    HMSetLastWriteWins(once, f, v);
    LastPairBound(req, f, v);
    var m := HMSetFields(once);
    assert m[f := v] == m;
    assert HMSetFields(twice) == m;
  }

  /** The last pair of an `hmset` request always reaches the engine. */
  lemma LastPairBound(req: Request, f: Bytes, v: Bytes)
    requires HMSetShapeOk(req + [f, v])
    ensures f in HMSetFields(req + [f, v]) && HMSetFields(req + [f, v])[f] == v
  {
    var once := req + [f, v];
    var k := |req|;
    assert once[k] == f && once[k + 1] == v;
    assert IsFieldPosition(once, k);
    assert IsLastField(once, k);
  }

  // ---------------------------------------------------------------------------
  // hdel
  // ---------------------------------------------------------------------------

  /**
    `hdel` depends on its field arguments only through the set they form:
    order and repetition make no difference to the engine call or reply.
   */
  lemma HDelDependsOnFieldSet(req: Request, req': Request, db: Engine)
    requires |req| >= 3 && |req'| >= 3 && req[1] == req'[1]
    requires forall x :: x in req[2..] <==> x in req'[2..]
    ensures HDel(req, db) == HDel(req', db)
  {
    assert Collect(req[2..]) == Collect(req'[2..]);
  }

  /** A field named twice in one `hdel` is handed to the engine once. */
  lemma HDelRepeatedField(req: Request, f: Bytes, db: Engine)
    requires |req| >= 3 && f in req[2..]
    ensures HDel(req + [f], db) == HDel(req, db)
  {
    assert (req + [f])[2..] == req[2..] + [f];
    HDelDependsOnFieldSet(req + [f], req, db);
  }

  // ---------------------------------------------------------------------------
  // hmget
  // ---------------------------------------------------------------------------

  /**
    The pairs for a request list are the pairs for its first part followed
    by the pairs for the rest: the reply follows request order.
   */
  lemma {:induction false} RequestedConcat(a: seq<Bytes>, b: seq<Bytes>, found: map<Bytes, Bytes>)
    ensures Requested(a + b, found) == Requested(a, found) + Requested(b, found)
  {
    if a == [] {
      assert a + b == b;
    } else {
      assert (a + b)[0] == a[0] && (a + b)[1..] == a[1..] + b;
      RequestedConcat(a[1..], b, found);
    }
  }

  /**
    Each field appears among the replied pairs as many times as it was
    requested when the engine found it, and never otherwise.
   */
  lemma {:induction false} RequestedMultiplicity(keys: seq<Bytes>, found: map<Bytes, Bytes>, f: Bytes)
    ensures multiset(Keys(Requested(keys, found)))[f] == if f in found then multiset(keys)[f] else 0
  {
    if keys != [] {
      RequestedMultiplicity(keys[1..], found, f);
      assert keys == [keys[0]] + keys[1..];
      var rest := Requested(keys[1..], found);
      if keys[0] in found {
        KeysCons((keys[0], found[keys[0]]), rest);
      }
    }
  }

  lemma KeysCons(p: Pair, rest: seq<Pair>)
    ensures Keys([p] + rest) == [p.0] + Keys(rest)
  {
    ProjectionsAt([p] + rest);
    ProjectionsAt(rest);
    assert forall i :: 0 < i < |rest| + 1 ==> ([p] + rest)[i] == rest[i - 1];
  }

  /**
    When the engine answers 1 and found every requested field, the reply is
    "ok" and then each requested field, in request order and repeats
    included, followed by its value.
   */
  lemma HMGetAllFound(req: Request, db: Engine)
    requires |req| >= 3
    requires db.hmget(req[1], req[2..]).0 == 1
    requires forall f :: f in req[2..] ==> f in db.hmget(req[1], req[2..]).1
    ensures HMGet(req, db).List?
    ensures |HMGet(req, db).tokens| == 1 + 2 * (|req| - 2)
    ensures forall j :: 0 <= j < |req| - 2 ==>
      && HMGet(req, db).tokens[1 + 2 * j] == req[2 + j]
      && HMGet(req, db).tokens[2 + 2 * j] == db.hmget(req[1], req[2..]).1[req[2 + j]]
  {
    var found := db.hmget(req[1], req[2..]).1;
    var keys := req[2..];
    var ps := Requested(keys, found);
    assert forall i :: 0 <= i < |keys| ==> keys[i] in found;
    var fs := Flatten(ps);
    assert HMGet(req, db) == List([OK] + fs);
    RequestedTokens(keys, found, ps, fs);
  }

  lemma RequestedTokens(keys: seq<Bytes>, found: map<Bytes, Bytes>, ps: seq<Pair>, fs: seq<Bytes>)
    requires forall i :: 0 <= i < |keys| ==> keys[i] in found
    requires ps == Requested(keys, found) && fs == Flatten(ps)
    ensures |fs| == 2 * |keys|
    ensures forall j :: 0 <= j < |keys| ==> fs[2 * j] == keys[j] && fs[2 * j + 1] == found[keys[j]]
  {
  }

  /**
    Splitting the requested fields splits the reply: the tokens after "ok"
    are those for the first part followed by those for the rest.
   */
  lemma HMGetReplySplits(req: Request, db: Engine, a: seq<Bytes>, b: seq<Bytes>)
    requires |req| >= 3 && req[2..] == a + b
    requires db.hmget(req[1], req[2..]).0 == 1
    ensures HMGet(req, db).List?
    ensures var found := db.hmget(req[1], req[2..]).1;
      HMGet(req, db).tokens == [OK] + Flatten(Requested(a, found)) + Flatten(Requested(b, found))
  {
    var found := db.hmget(req[1], req[2..]).1;
    var ts := HMGet(req, db).tokens;
    assert Pairs(ts[1..]) == Requested(a + b, found);
    FlattenOfPairs(ts[1..]);
    SplitFlatten(a, b, found);
    assert ts == [OK] + ts[1..];
  }

  lemma SplitFlatten(a: seq<Bytes>, b: seq<Bytes>, found: map<Bytes, Bytes>)
    ensures Flatten(Requested(a + b, found)) == Flatten(Requested(a, found)) + Flatten(Requested(b, found))
  {
    RequestedConcat(a, b, found);
    FlattenConcat(Requested(a, found), Requested(b, found));
  }

  // ---------------------------------------------------------------------------
  // hgetall, hkeys, hvals
  // ---------------------------------------------------------------------------

  /**
    The `hgetall` reply lists the engine's map as the one strictly
    ascending sequence of its entries.
   */
  lemma HGetAllIsAscendingListing(req: Request, db: Engine, es: seq<Pair>)
    requires |req| >= 2 && db.hgetall(req[1]).0 > 0
    requires forall i :: 0 <= i < |es| ==> es[i].0 in db.hgetall(req[1]).1 && es[i].1 == db.hgetall(req[1]).1[es[i].0]
    requires forall k :: k in db.hgetall(req[1]).1 ==> exists i :: 0 <= i < |es| && es[i].0 == k
    requires forall i, j :: 0 <= i < j < |es| ==> Below(es[i].0, es[j].0)
    ensures HGetAll(req, db) == List([OK] + Flatten(es))
  {
    EntriesUnique(db.hgetall(req[1]).1, es);
  }

  /**
    `hkeys` is a projection of the `hgetall` reply for the same name: the
    same error, or "ok" followed by its fields in the same order.
   */
  lemma KeysProjectGetAll(req: Request, db: Engine)
    requires |req| >= 5
    ensures HGetAll(req, db).Fail? ==> HKeys(req, db) == HGetAll(req, db)
    ensures HGetAll(req, db).List? ==>
      && |HGetAll(req, db).tokens| % 2 == 1
      && HKeys(req, db) == List([OK] + Keys(Pairs(HGetAll(req, db).tokens[1..])))
  {
    if db.hgetall(req[1]).0 > 0 {
      var es := Entries(db.hgetall(req[1]).1);
      GetAllTokens(req, db, es);
      assert HKeys(req, db) == List([OK] + Keys(es));
    } else if db.hgetall(req[1]).0 == 0 {
      assert Pairs([OK][1..]) == [];
    }
  }

  /**
    `hvals` is a projection of the `hgetall` reply for the same name: the
    same error, or "ok" followed by its values in the same order.
   */
  lemma ValuesProjectGetAll(req: Request, db: Engine)
    requires |req| >= 5
    ensures HGetAll(req, db).Fail? ==> HVals(req, db) == HGetAll(req, db)
    ensures HGetAll(req, db).List? ==>
      && |HGetAll(req, db).tokens| % 2 == 1
      && HVals(req, db) == List([OK] + Values(Pairs(HGetAll(req, db).tokens[1..])))
  {
    if db.hgetall(req[1]).0 > 0 {
      var es := Entries(db.hgetall(req[1]).1);
      GetAllTokens(req, db, es);
      assert HVals(req, db) == List([OK] + Values(es));
    } else if db.hgetall(req[1]).0 == 0 {
      assert Pairs([OK][1..]) == [];
    }
  }

  lemma GetAllTokens(req: Request, db: Engine, es: seq<Pair>)
    requires |req| >= 2 && db.hgetall(req[1]).0 > 0 && es == Entries(db.hgetall(req[1]).1)
    ensures HGetAll(req, db).List?
    ensures |HGetAll(req, db).tokens| % 2 == 1
    ensures Pairs(HGetAll(req, db).tokens[1..]) == es
  {
  }

  /**
    The range and limit arguments of `hkeys` and `hvals` have no effect:
    two requests for the same name get the same reply.
   */
  lemma KeysAndValuesIgnoreRange(req: Request, req': Request, db: Engine)
    requires |req| >= 5 && |req'| >= 5 && req[1] == req'[1]
    ensures HKeys(req, db) == HKeys(req', db)
    ensures HVals(req, db) == HVals(req', db)
  {
  }

  // ---------------------------------------------------------------------------
  // hscan
  // ---------------------------------------------------------------------------

  /**
    With a valid cursor and well-formed options, `hscan` hands the engine
    the cursor token itself, the last `match` value (default "*") and the
    last `count` value (default 10); malformed options are rejected before
    the engine is called.
   */
  lemma HScanEngineArguments(req: Request, num: Parsers, db: Engine)
    requires |req| >= 3 && HScanDefined(req, num) && num.uint64(req[2]).Some?
    ensures !WellFormed(req[3..], num) ==>
      && HScan(req, num, db).Fail?
      && (HScan(req, num, db).error == InvalidInt || HScan(req, num, db).error == SyntaxErr)
    ensures WellFormed(req[3..], num) ==>
      var pattern := LastValue(req[3..], MATCH).GetOr(Ascii("*"));
      var limit := match LastValue(req[3..], COUNT)
                   case None => 10
                   case Some(v) => num.uint64(v).GetOr(10);
      var (ret, rows) := db.hscan(req[1], req[2], pattern, limit, [OK, ZERO]);
      HScan(req, num, db) == if ret < 0 then Fail(Status(ret)) else List(rows)
  {
    ParseMeaning(req[3..], num, DEFAULT_ARGS);
  }

  /** A bare `hscan name cursor` scans with pattern "*" and limit 10. */
  lemma HScanDefaults(req: Request, num: Parsers, db: Engine)
    requires |req| == 3 && num.uint64(req[2]).Some?
    ensures var (ret, rows) := db.hscan(req[1], req[2], Ascii("*"), 10, [OK, ZERO]);
      HScan(req, num, db) == if ret < 0 then Fail(Status(ret)) else List(rows)
  {
    assert req[3..] == [];
  }

  /** The engine's scan only appends to the reply it is handed. */
  ghost predicate ScanAppends(db: Engine) {
    forall name, cursor, pattern, limit, before ::
      var after := db.hscan(name, cursor, pattern, limit, before).1;
      |after| >= |before| && after[..|before|] == before
  }

  /**
    With an engine that only appends, a successful `hscan` reply starts
    with "ok" and "0" and then holds what the engine appended.
   */
  lemma HScanReplyPrefix(req: Request, num: Parsers, db: Engine)
    requires HScanDefined(req, num) && ScanAppends(db)
    requires HScan(req, num, db).List?
    ensures |HScan(req, num, db).tokens| >= 2
    ensures HScan(req, num, db).tokens[..2] == [OK, ZERO]
  {
    var args := Parse(req[3..], num, DEFAULT_ARGS).value;
    var rows := db.hscan(req[1], req[2], args.pattern, args.limit, [OK, ZERO]).1;
    assert HScan(req, num, db).tokens == rows;
  }

  /** An option name is recognised in any mix of upper and lower case. */
  lemma OptionNamesIgnoreCase(s: Bytes)
    ensures Lower(s) == MATCH <==> SpellsIgnoringCase(s, MATCH)
    ensures Lower(s) == COUNT <==> SpellsIgnoringCase(s, COUNT)
  {
    LowerMatchesIgnoringCase(s, MATCH);
    LowerMatchesIgnoringCase(s, COUNT);
  }

  // ---------------------------------------------------------------------------
  // hget, hexists, hset, hsetnx, hincr
  // ---------------------------------------------------------------------------

  /**
    `hexists` and `hget` make the same engine call and agree: the same
    error, and `hexists` answers true exactly when the status is positive
    and `hget` reports a hit.
   */
  lemma HExistsAgreesWithHGet(req: Request, db: Engine)
    requires |req| >= 3
    ensures HExists(req, db).Fail? <==> HGet(req, db).Fail?
    ensures HExists(req, db).Fail? ==> HExists(req, db) == HGet(req, db)
    ensures !HExists(req, db).Fail? ==>
      (HExists(req, db) == Bool(1) <==> db.hget(req[1], req[2]).0 > 0 && HGet(req, db).found == 1)
  {
  }

  /**
    `hsetnx` answers exactly as `hset` would if the engine's `hset` did
    what its `hsetnx` does: the handlers differ only in the engine call.
   */
  lemma HSetNXIsHSetShaped(req: Request, db: Engine)
    ensures HSetNX(req, db) == HSet(req, db.(hset := db.hsetnx))
  {
  }

  /**
    A delta that does not parse is rejected before the engine is asked:
    any two engines give the same reply.
   */
  lemma HIncrRejectsBeforeEngine(req: Request, num: Parsers, db: Engine, db': Engine)
    requires |req| >= 4 && num.int64(req[3]).None?
    ensures HIncr(req, num, db) == HIncr(req, num, db') == Fail(InvalidInt)
  {
  }

  /**
    `hget` ignores which non-negative status the engine gave: two engines
    agreeing on the value and found flag give the same reply.
   */
  lemma HGetDecidedByFoundFlag(req: Request, db: Engine, db': Engine)
    requires |req| >= 3
    requires db.hget(req[1], req[2]).0 >= 0 && db'.hget(req[1], req[2]).0 >= 0
    requires db.hget(req[1], req[2]).1 == db'.hget(req[1], req[2]).1
    requires db.hget(req[1], req[2]).2 == db'.hget(req[1], req[2]).2
    ensures HGet(req, db) == HGet(req, db')
  {
  }
}
