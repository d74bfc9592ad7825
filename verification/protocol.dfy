/**
  What a command handler sees and produces: the request token list, the
  storage engine behind `serv->ssdb` (whose source is not part of this
  model, so every engine call is an opaque function returning its status
  and out-values), the number parsers of `Bytes`, and the reply.
 */
module Protocol {
  import opened Wrappers
  import opened ByteStrings
  import opened OrderedMap

  /** `req[0]` is the command, `req[1]` the container name, the rest arguments. */
  type Request = seq<Bytes>

  type Int64 = x: int | -0x8000_0000_0000_0000 <= x < 0x8000_0000_0000_0000

  type Uint64 = x: int | 0 <= x < 0x1_0000_0000_0000_0000

  /**
    The engine calls the hash handlers make. Each returns the engine's
    tri-state status (negative: error code, 0: empty or false, positive:
    present or true) and the values it writes through its out-parameters.
   */
  datatype Engine = Engine(
    hget: (Bytes, Bytes) -> (int, Bytes, bool),        // status, value, found
    hset: (Bytes, Bytes, Bytes) -> (int, int),         // status, added
    hsetnx: (Bytes, Bytes, Bytes) -> (int, int),       // status, added
    hmset: (Bytes, map<Bytes, Bytes>) -> int,          // status
    hdel: (Bytes, set<Bytes>) -> (int, int),           // status, deleted
    hmget: (Bytes, seq<Bytes>) -> (int, map<Bytes, Bytes>),
    hsize: Bytes -> (int, Uint64),                     // status, size
    hgetall: Bytes -> (int, map<Bytes, Bytes>),
    hscan: (Bytes, Bytes, Bytes, Uint64, seq<Bytes>) -> (int, seq<Bytes>), // status, the reply it was handed as it leaves it
    hincr: (Bytes, Bytes, Int64) -> (int, Int64)       // status, new value
  )

  /**
    `Bytes::Uint64` and `Bytes::Int64`: `None` where the source sees
    `errno == EINVAL` after the call.
   */
  datatype Parsers = Parsers(uint64: Bytes -> Option<Uint64>, int64: Bytes -> Option<Int64>)

  datatype Error =
    | TooFewParams(min: nat)     // CHECK_NUM_PARAMS(min) on a shorter request
    | ErrInfo(message: Bytes)    // reply_errinfo_return(message)
    | InvalidInt                 // reply_err_return(INVALID_INT)
    | SyntaxErr                  // reply_err_return(SYNTAX_ERR)
    | Status(code: int)          // reply_err_return(ret) with the engine's status

  /**
    A reply, named after the `Response` helper that builds it and carrying
    that helper's arguments; `List` is a reply built token by token with
    `push_back`.
   */
  datatype Reply =
    | Fail(error: Error)
    | Bool(flag: int)                  // reply_bool(flag)
    | Int(status: int, value: int)     // reply_int(status, value)
    | Get(found: int, item: Bytes)     // reply_get(found, &item)
    | List(tokens: seq<Bytes>)

  const OK: Bytes := Ascii("ok")
  const ZERO: Bytes := Ascii("0")

  // ---------------------------------------------------------------------------
  // Pairs laid out as alternating tokens
  // ---------------------------------------------------------------------------

  /** Pairs written out as key, value, key, value, ... */
  function Flatten(ps: seq<Pair>): (ts: seq<Bytes>)
    ensures |ts| == 2 * |ps|
    ensures forall i :: 0 <= i < |ps| ==> ts[2 * i] == ps[i].0 && ts[2 * i + 1] == ps[i].1
  {
    if ps == [] then [] else [ps[0].0, ps[0].1] + Flatten(ps[1..])
  }

  /** Alternating key and value tokens read back as pairs. */
  function Pairs(ts: seq<Bytes>): (ps: seq<Pair>)
    requires |ts| % 2 == 0
    ensures |ps| == |ts| / 2
  {
    seq(|ts| / 2, i requires 0 <= i < |ts| / 2 => (ts[2 * i], ts[2 * i + 1]))
  }

  lemma PairsOfFlatten(ps: seq<Pair>)
    ensures Pairs(Flatten(ps)) == ps
  {
  }

  lemma FlattenOfPairs(ts: seq<Bytes>)
    requires |ts| % 2 == 0
    ensures Flatten(Pairs(ts)) == ts
  {
    var fs := Flatten(Pairs(ts));
    forall k | 0 <= k < |ts|
      ensures fs[k] == ts[k]
    {
      var i := k / 2;
      assert 0 <= i < |Pairs(ts)|;
      if k % 2 == 0 {
        assert k == 2 * i;
        assert fs[2 * i] == Pairs(ts)[i].0 == ts[2 * i];
      } else {
        assert k == 2 * i + 1;
        assert fs[2 * i + 1] == Pairs(ts)[i].1 == ts[2 * i + 1];
      }
    }
  }

  lemma {:induction false} FlattenConcat(a: seq<Pair>, b: seq<Pair>)
    ensures Flatten(a + b) == Flatten(a) + Flatten(b)
  {
    if a == [] {
      assert a + b == b;
    } else {
      assert (a + b)[0] == a[0] && (a + b)[1..] == a[1..] + b;
      FlattenConcat(a[1..], b);
    }
  }
}
