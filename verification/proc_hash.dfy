/**
  The hash command handlers of ssdb-1.9.2/src/proc_hash.cpp. Each handler
  checks the request's shape, makes one call on the engine (or none, when
  the request is rejected first) and turns the engine's status and
  out-values into a reply.
 */
module ProcHash {
  import opened Wrappers
  import opened ByteStrings
  import opened OrderedMap
  import opened Protocol
  import opened HScanOptions

  const HMSET_ARITY_MESSAGE: Bytes := Ascii("wrong number of arguments for 'hmset' command")

  // ---------------------------------------------------------------------------
  // hexists, hset, hsetnx, hget, hsize
  // ---------------------------------------------------------------------------

  /** `hexists name field`: true exactly when the engine found the field. */
  function HExists(req: Request, db: Engine): (r: Reply)
    ensures |req| < 3 ==> r == Fail(TooFewParams(3))
    ensures |req| >= 3 ==>
      var (ret, _, found) := db.hget(req[1], req[2]);
      && (r.Fail? <==> ret < 0)
      && (ret < 0 ==> r.error == Status(ret))
      && (ret >= 0 ==> r.Bool? && (r.flag == 1 <==> ret > 0 && found) && (r.flag == 0 <==> !(ret > 0 && found)))
  {
    if |req| < 3 then Fail(TooFewParams(3))
    else
      var (ret, _, found) := db.hget(req[1], req[2]);
      if ret < 0 then Fail(Status(ret))
      else if ret == 0 then Bool(0)
      else Bool(if found then 1 else 0)
  }

  /** The reply `hset` and `hsetnx` share: false when empty, else the added flag. */
  function AddedReply(ret: int, added: int): (r: Reply)
    ensures r.Fail? <==> ret < 0
    ensures ret < 0 ==> r.error == Status(ret)
    ensures ret == 0 ==> r == Bool(0)
    ensures ret > 0 ==> r == Bool(added)
  {
    if ret < 0 then Fail(Status(ret))
    else if ret == 0 then Bool(ret)
    else Bool(added)
  }

  /** `hset name field value`. */
  function HSet(req: Request, db: Engine): (r: Reply)
    ensures |req| < 4 ==> r == Fail(TooFewParams(4))
    ensures |req| >= 4 ==>
      var (ret, added) := db.hset(req[1], req[2], req[3]);
      && (r.Fail? <==> ret < 0)
      && (ret < 0 ==> r.error == Status(ret))
      && (ret == 0 ==> r == Bool(0))
      && (ret > 0 ==> r == Bool(added))
  {
    if |req| < 4 then Fail(TooFewParams(4))
    else
      var (ret, added) := db.hset(req[1], req[2], req[3]);
      AddedReply(ret, added)
  }

  /** `hsetnx name field value`: shaped exactly like `hset`. */
  function HSetNX(req: Request, db: Engine): (r: Reply)
    ensures |req| < 4 ==> r == Fail(TooFewParams(4))
    ensures |req| >= 4 ==>
      var (ret, added) := db.hsetnx(req[1], req[2], req[3]);
      && (r.Fail? <==> ret < 0)
      && (ret < 0 ==> r.error == Status(ret))
      && (ret == 0 ==> r == Bool(0))
      && (ret > 0 ==> r == Bool(added))
  {
    if |req| < 4 then Fail(TooFewParams(4))
    else
      var (ret, added) := db.hsetnx(req[1], req[2], req[3]);
      AddedReply(ret, added)
  }

  /**
    `hget name field`: any non-negative status gives a lookup reply, and
    only the engine's found flag decides whether it is a hit.
   */
  function HGet(req: Request, db: Engine): (r: Reply)
    ensures |req| < 3 ==> r == Fail(TooFewParams(3))
    ensures |req| >= 3 ==>
      var (ret, value, found) := db.hget(req[1], req[2]);
      && (r.Fail? <==> ret < 0)
      && (ret < 0 ==> r.error == Status(ret))
      && (ret >= 0 ==> r.Get? && r.item == value && (r.found == 1 <==> found) && (r.found == 0 <==> !found))
  {
    if |req| < 3 then Fail(TooFewParams(3))
    else
      var (ret, value, found) := db.hget(req[1], req[2]);
      if ret < 0 then Fail(Status(ret))
      else if found then Get(1, value)
      else Get(0, value)
  }

  /** `hsize name`: the engine's status and size, unless the status is an error. */
  function HSize(req: Request, db: Engine): (r: Reply)
    ensures |req| < 2 ==> r == Fail(TooFewParams(2))
    ensures |req| >= 2 ==>
      var (ret, size) := db.hsize(req[1]);
      && (r.Fail? <==> ret < 0)
      && (ret < 0 ==> r.error == Status(ret))
      && (ret >= 0 ==> r.Int? && r.status == ret && r.value == size && r.value >= 0)
  {
    if |req| < 2 then Fail(TooFewParams(2))
    else
      var (ret, size) := db.hsize(req[1]);
      if ret < 0 then Fail(Status(ret)) else Int(ret, size)
  }

  // ---------------------------------------------------------------------------
  // hmset
  // ---------------------------------------------------------------------------

  /** The request shapes `hmset` accepts: a name and at least one field/value pair. */
  predicate HMSetShapeOk(req: Request) {
    |req| >= 4 && |req| % 2 == 0
  }

  /** Position `k` of an `hmset` request holds a field name, followed by its value. */
  predicate IsFieldPosition(req: Request, k: int) {
    2 <= k && k + 1 < |req| && k % 2 == 0
  }

  /** No later field position of the request repeats the field at `k`. */
  predicate IsLastField(req: Request, k: int)
    requires 0 <= k < |req|
  {
    forall l :: k < l < |req| && l % 2 == 0 ==> req[l] != req[k]
  }

  /**
    The field map `hmset` hands to the engine: its keys are exactly the
    tokens at positions 2, 4, 6, ..., each bound to the token after its last
    occurrence, and it has at least one and at most one entry per pair.
   */
  function HMSetFields(req: Request): (kvs: map<Bytes, Bytes>)
    requires HMSetShapeOk(req)
    ensures forall k {:trigger IsFieldPosition(req, k)} :: IsFieldPosition(req, k) ==> req[k] in kvs
    ensures forall f :: f in kvs ==> exists k :: IsFieldPosition(req, k) && req[k] == f
    ensures forall k {:trigger IsLastField(req, k)} :: IsFieldPosition(req, k) && IsLastField(req, k) ==>
      req[k] in kvs && kvs[req[k]] == req[k + 1]
    ensures 1 <= |kvs| <= (|req| - 2) / 2
  {
    var ps := Pairs(req[2..]);
    var kvs := Assign(ps);
    HMSetFieldsMeaning(req, ps, kvs);
    kvs
  }

  lemma HMSetFieldsMeaning(req: Request, ps: seq<Pair>, kvs: map<Bytes, Bytes>)
    requires HMSetShapeOk(req) && ps == Pairs(req[2..])
    requires IsAssignmentOf(ps, kvs) && |kvs| <= |ps|
    ensures forall k {:trigger IsFieldPosition(req, k)} :: IsFieldPosition(req, k) ==> req[k] in kvs
    ensures forall f :: f in kvs ==> exists k :: IsFieldPosition(req, k) && req[k] == f
    ensures forall k {:trigger IsLastField(req, k)} :: IsFieldPosition(req, k) && IsLastField(req, k) ==>
      req[k] in kvs && kvs[req[k]] == req[k + 1]
    ensures 1 <= |kvs| <= (|req| - 2) / 2
  {
    PairPositions(req, ps);
    forall f
      ensures f in kvs <==> exists k :: IsFieldPosition(req, k) && req[k] == f
    {
      HMSetKey(req, ps, kvs, f);
    }
    forall k | IsFieldPosition(req, k) && IsLastField(req, k)
      ensures req[k] in kvs && kvs[req[k]] == req[k + 1]
    {
      LastFieldIsLastWrite(req, ps, k);
    }
    assert ps[0].0 in kvs;
  }

  lemma HMSetKey(req: Request, ps: seq<Pair>, kvs: map<Bytes, Bytes>, f: Bytes)
    requires HMSetShapeOk(req) && |ps| == (|req| - 2) / 2
    requires forall i :: 0 <= i < |ps| ==> ps[i].0 == req[2 + 2 * i]
    requires forall k :: k in kvs <==> exists i :: 0 <= i < |ps| && ps[i].0 == k
    ensures f in kvs <==> exists k :: IsFieldPosition(req, k) && req[k] == f
  {
    if f in kvs {
      var i :| 0 <= i < |ps| && ps[i].0 == f;
      assert IsFieldPosition(req, 2 + 2 * i) && req[2 + 2 * i] == f;
    }
    if exists k :: IsFieldPosition(req, k) && req[k] == f {
      var k :| IsFieldPosition(req, k) && req[k] == f;
      var i := (k - 2) / 2;
      assert k == 2 + 2 * i;
      assert ps[i].0 == f;
    }
  }

  /** Pair `i` of the request's pairs is the field at `2 + 2 * i` and its value. */
  lemma PairPositions(req: Request, ps: seq<Pair>)
    requires HMSetShapeOk(req) && ps == Pairs(req[2..])
    ensures forall i :: 0 <= i < |ps| ==> ps[i].0 == req[2 + 2 * i] && ps[i].1 == req[3 + 2 * i]
  {
    forall i | 0 <= i < |ps|
      ensures ps[i].0 == req[2 + 2 * i] && ps[i].1 == req[3 + 2 * i]
    {
      assert ps[i] == (req[2..][2 * i], req[2..][2 * i + 1]);
    }
  }

  lemma LastFieldIsLastWrite(req: Request, ps: seq<Pair>, k: int)
    requires HMSetShapeOk(req) && ps == Pairs(req[2..])
    requires forall i :: 0 <= i < |ps| ==> ps[i].0 == req[2 + 2 * i] && ps[i].1 == req[3 + 2 * i]
    requires IsFieldPosition(req, k) && IsLastField(req, k)
    ensures 0 <= (k - 2) / 2 < |ps| && IsLastWrite(ps, (k - 2) / 2)
    ensures ps[(k - 2) / 2] == (req[k], req[k + 1])
  {
    var i := (k - 2) / 2;
    assert k == 2 + 2 * i;
    forall j | i < j < |ps|
      ensures ps[j].0 != ps[i].0
    {
      assert 2 + 2 * j > k && (2 + 2 * j) % 2 == 0;
    }
  }

  /**
    `hmset name field value ...`: rejected without an engine call unless it
    holds whole pairs; otherwise the engine gets the field map, and any
    non-error status replies the integer 1 whatever the number of fields.
   */
  function HMSet(req: Request, db: Engine): (r: Reply)
    ensures !HMSetShapeOk(req) ==> r == Fail(ErrInfo(HMSET_ARITY_MESSAGE))
    ensures HMSetShapeOk(req) ==>
      var ret := db.hmset(req[1], HMSetFields(req));
      && (r.Fail? <==> ret < 0)
      && (ret < 0 ==> r.error == Status(ret))
      && (ret >= 0 ==> r == Int(0, 1))
  {
    if !HMSetShapeOk(req) then Fail(ErrInfo(HMSET_ARITY_MESSAGE))
    else
      var ret := db.hmset(req[1], HMSetFields(req));
      if ret < 0 then Fail(Status(ret)) else Int(0, 1)
  }

  // ---------------------------------------------------------------------------
  // hdel
  // ---------------------------------------------------------------------------

  /**
    `hdel name field ...`: the engine gets the set of named fields, each
    once, and the reply is exactly the count the engine reports deleted.
   */
  function HDel(req: Request, db: Engine): (r: Reply)
    ensures |req| < 3 ==> r == Fail(TooFewParams(3))
    ensures |req| >= 3 ==>
      var (ret, deleted) := db.hdel(req[1], Collect(req[2..]));
      && (r.Fail? <==> ret < 0)
      && (ret < 0 ==> r.error == Status(ret))
      && (ret >= 0 ==> r == Int(0, deleted))
  {
    if |req| < 3 then Fail(TooFewParams(3))
    else
      var (ret, deleted) := db.hdel(req[1], Collect(req[2..]));
      if ret < 0 then Fail(Status(ret)) else Int(0, deleted)
  }

  // ---------------------------------------------------------------------------
  // hmget
  // ---------------------------------------------------------------------------

  /**
    The (field, value) pairs `hmget` replies, one per requested key that
    the result map holds, in request order.
   */
  function Requested(keys: seq<Bytes>, found: map<Bytes, Bytes>): (ps: seq<Pair>)
    ensures |ps| <= |keys|
    ensures forall i :: 0 <= i < |ps| ==> ps[i].0 in keys && ps[i].0 in found && ps[i].1 == found[ps[i].0]
    ensures (forall i :: 0 <= i < |keys| ==> keys[i] in found) ==>
      |ps| == |keys| && forall i :: 0 <= i < |keys| ==> ps[i].0 == keys[i]
    ensures (forall i :: 0 <= i < |keys| ==> keys[i] !in found) ==> ps == []
    decreases |keys|
  {
    if keys == [] then []
    else
      var rest := Requested(keys[1..], found);
      assert forall i :: 0 <= i < |rest| ==> rest[i].0 in keys by {
        forall i | 0 <= i < |rest|
          ensures rest[i].0 in keys
        {
          assert rest[i].0 in keys[1..];
        }
      }
      if keys[0] in found then [(keys[0], found[keys[0]])] + rest else rest
  }

  /**
    `hmget name field ...`: status 1 replies "ok" and the requested pairs
    the engine found, status 0 replies just "ok", any other status is an
    error.
   */
  function HMGet(req: Request, db: Engine): (r: Reply)
    ensures |req| < 3 ==> r == Fail(TooFewParams(3))
    ensures |req| >= 3 ==>
      var (ret, found) := db.hmget(req[1], req[2..]);
      && (r.Fail? <==> ret != 0 && ret != 1)
      && (r.Fail? ==> r.error == Status(ret))
      && (ret == 0 ==> r == List([OK]))
      && (ret == 1 ==> r.List? && |r.tokens| % 2 == 1 && r.tokens[0] == OK
                       && Pairs(r.tokens[1..]) == Requested(req[2..], found))
  {
    if |req| < 3 then Fail(TooFewParams(3))
    else
      var (ret, found) := db.hmget(req[1], req[2..]);
      if ret == 1 then
        var ps := Requested(req[2..], found);
        PairsOfFlatten(ps);
        List([OK] + Flatten(ps))
      else if ret == 0 then List([OK])
      else Fail(Status(ret))
  }

  // ---------------------------------------------------------------------------
  // hgetall, hkeys, hvals
  // ---------------------------------------------------------------------------

  /**
    `hgetall name`: "ok" then every field and its value, fields ascending;
    just "ok" when the engine reports the hash empty.
   */
  function HGetAll(req: Request, db: Engine): (r: Reply)
    ensures |req| < 2 ==> r == Fail(TooFewParams(2))
    ensures |req| >= 2 ==>
      var (ret, all) := db.hgetall(req[1]);
      && (r.Fail? <==> ret < 0)
      && (ret < 0 ==> r.error == Status(ret))
      && (ret == 0 ==> r == List([OK]))
      && (ret > 0 ==> r.List? && |r.tokens| == 1 + 2 * |all| && r.tokens[0] == OK
                      && Pairs(r.tokens[1..]) == Entries(all))
  {
    if |req| < 2 then Fail(TooFewParams(2))
    else
      var (ret, all) := db.hgetall(req[1]);
      if ret < 0 then Fail(Status(ret))
      else if ret == 0 then List([OK])
      else
        PairsOfFlatten(Entries(all));
        List([OK] + Flatten(Entries(all)))
  }

  /**
    `hkeys name start end limit`: "ok" then the fields of the whole hash in
    ascending order; the range and limit tokens are required but unused.
   */
  function HKeys(req: Request, db: Engine): (r: Reply)
    ensures |req| < 5 ==> r == Fail(TooFewParams(5))
    ensures |req| >= 5 ==>
      var (ret, all) := db.hgetall(req[1]);
      && (r.Fail? <==> ret < 0)
      && (ret < 0 ==> r.error == Status(ret))
      && (ret == 0 ==> r == List([OK]))
      && (ret > 0 ==> r.List? && |r.tokens| == 1 + |all| && r.tokens[0] == OK
                      && (forall f :: f in r.tokens[1..] <==> f in all)
                      && StrictlyAscending(r.tokens[1..]))
  {
    if |req| < 5 then Fail(TooFewParams(5))
    else
      var (ret, all) := db.hgetall(req[1]);
      if ret < 0 then Fail(Status(ret))
      else if ret == 0 then List([OK])
      else
        var ks := Keys(Entries(all));
        KeysOfEntries(all);
        assert ([OK] + ks)[1..] == ks;
        List([OK] + ks)
  }

  /**
    `hvals name start end limit`: "ok" then the values of the whole hash,
    ordered by their fields; the range and limit tokens are required but
    unused.
   */
  function HVals(req: Request, db: Engine): (r: Reply)
    ensures |req| < 5 ==> r == Fail(TooFewParams(5))
    ensures |req| >= 5 ==>
      var (ret, all) := db.hgetall(req[1]);
      && (r.Fail? <==> ret < 0)
      && (ret < 0 ==> r.error == Status(ret))
      && (ret == 0 ==> r == List([OK]))
      && (ret > 0 ==> r.List? && |r.tokens| == 1 + |all| && r.tokens[0] == OK
                      && forall i :: 1 <= i < |r.tokens| ==> r.tokens[i] in all.Values)
  {
    if |req| < 5 then Fail(TooFewParams(5))
    else
      var (ret, all) := db.hgetall(req[1]);
      if ret < 0 then Fail(Status(ret))
      else if ret == 0 then List([OK])
      else
        ProjectionsAt(Entries(all));
        List([OK] + Values(Entries(all)))
  }

  // ---------------------------------------------------------------------------
  // hscan, hincr
  // ---------------------------------------------------------------------------

  /**
    The `hscan` requests the source handles without reading past their end:
    a short request or a malformed cursor is answered before the option
    loop reads anything.
   */
  predicate HScanDefined(req: Request, num: Parsers) {
    |req| >= 3 && num.uint64(req[2]).Some? ==> OptionsDefined(req[3..], num)
  }

  /**
    `hscan name cursor [match pattern] [count limit] ...`: the cursor must
    parse as an unsigned integer, yet the engine is handed the cursor token
    itself. The engine is handed the reply "ok", "0" as built so far and
    may change it; a non-negative status replies the list it leaves, and a
    negative status discards it for an error.
   */
  function HScan(req: Request, num: Parsers, db: Engine): (r: Reply)
    requires HScanDefined(req, num)
    ensures |req| < 3 ==> r == Fail(TooFewParams(3))
    ensures |req| >= 3 && num.uint64(req[2]).None? ==> r == Fail(InvalidInt)
    ensures |req| >= 3 && num.uint64(req[2]).Some? ==>
      match Parse(req[3..], num, DEFAULT_ARGS)
      case Failure(e) => r == Fail(e) && (e == InvalidInt || e == SyntaxErr)
      case Success(args) =>
        var (ret, rows) := db.hscan(req[1], req[2], args.pattern, args.limit, [OK, ZERO]);
        && (r.Fail? <==> ret < 0)
        && (ret < 0 ==> r == Fail(Status(ret)))
        && (ret >= 0 ==> r == List(rows))
  {
    if |req| < 3 then Fail(TooFewParams(3))
    else if num.uint64(req[2]).None? then Fail(InvalidInt)
    else
      match Parse(req[3..], num, DEFAULT_ARGS)
      case Failure(e) => Fail(e)
      case Success(args) =>
        var (ret, rows) := db.hscan(req[1], req[2], args.pattern, args.limit, [OK, ZERO]);
        if ret < 0 then Fail(Status(ret)) else List(rows)
  }

  /**
    `hincr name field delta`: a delta that is not a signed 64-bit integer
    is rejected before the engine is called; otherwise the reply carries
    the engine's status and new value.
   */
  function HIncr(req: Request, num: Parsers, db: Engine): (r: Reply)
    ensures |req| < 4 ==> r == Fail(TooFewParams(4))
    ensures |req| >= 4 && num.int64(req[3]).None? ==> r == Fail(InvalidInt)
    ensures |req| >= 4 && num.int64(req[3]).Some? ==>
      var (ret, value) := db.hincr(req[1], req[2], num.int64(req[3]).value);
      && (r.Fail? <==> ret < 0)
      && (ret < 0 ==> r.error == Status(ret))
      && (ret >= 0 ==> r == Int(ret, value))
  {
    if |req| < 4 then Fail(TooFewParams(4))
    else
      match num.int64(req[3])
      case None => Fail(InvalidInt)
      case Some(delta) =>
        var (ret, value) := db.hincr(req[1], req[2], delta);
        if ret < 0 then Fail(Status(ret)) else Int(ret, value)
  }
}
