/**
  The option list of `hscan` (ssdb-1.9.2/src/proc_hash.cpp, lines 235-253):
  name/value pairs after the cursor, names compared after lower-casing,
  `match` setting the pattern and `count` the limit, anything else a syntax
  error.
 */
module HScanOptions {
  import opened Wrappers
  import opened ByteStrings
  import opened Protocol

  const MATCH: Bytes := Ascii("match")
  const COUNT: Bytes := Ascii("count")

  /** The pattern and limit handed to the engine's scan. */
  datatype ScanArgs = ScanArgs(pattern: Bytes, limit: Uint64)

  const DEFAULT_ARGS: ScanArgs := ScanArgs(Ascii("*"), 10)

  /**
    The option lists the source handles without reading past the end of
    the request: every `match` or `count` name has a value after it, except
    that a `count` whose value fails to parse ends the loop early. A lone
    trailing name that is neither is still answered with a syntax error.
   */
  predicate OptionsDefined(opts: seq<Bytes>, num: Parsers): (r: bool)
    ensures |opts| % 2 == 0 ==> r
    decreases |opts|
  {
    if opts == [] then true
    else if Lower(opts[0]) == MATCH then |opts| >= 2 && OptionsDefined(opts[2..], num)
    else if Lower(opts[0]) == COUNT then
      |opts| >= 2 && (num.uint64(opts[1]).None? || OptionsDefined(opts[2..], num))
    else true
  }

  /** The option loop, starting from `args` and stopping at the first error. */
  function Parse(opts: seq<Bytes>, num: Parsers, args: ScanArgs): (r: Result<ScanArgs, Error>)
    requires OptionsDefined(opts, num)
    ensures r.Failure? ==> r.error == InvalidInt || r.error == SyntaxErr
    decreases |opts|
  {
    if opts == [] then Success(args)
    else if Lower(opts[0]) == MATCH then Parse(opts[2..], num, args.(pattern := opts[1]))
    else if Lower(opts[0]) == COUNT then
      match num.uint64(opts[1])
      case None => Failure(InvalidInt)
      case Some(n) => Parse(opts[2..], num, args.(limit := n))
    else Failure(SyntaxErr)
  }

  // ---------------------------------------------------------------------------
  // Reference meaning of the option loop
  // ---------------------------------------------------------------------------

  /** Position `k` of the option list holds an option name. */
  predicate IsNamePosition(opts: seq<Bytes>, k: int) {
    0 <= k < |opts| && k % 2 == 0
  }

  /** Every name is `match` or `count` in some case, every `count` value parses. */
  ghost predicate WellFormed(opts: seq<Bytes>, num: Parsers) {
    && |opts| % 2 == 0
    && forall k :: IsNamePosition(opts, k) ==>
         && (Lower(opts[k]) == MATCH || Lower(opts[k]) == COUNT)
         && (Lower(opts[k]) == COUNT ==> num.uint64(opts[k + 1]).Some?)
  }

  /** Every name that is `count` in some case has a value that parses. */
  ghost predicate CountsParse(opts: seq<Bytes>, num: Parsers) {
    forall k :: IsNamePosition(opts, k) && k + 1 < |opts| && Lower(opts[k]) == COUNT ==>
      num.uint64(opts[k + 1]).Some?
  }

  /** Every name is `match` or `count` in some case, and each has a value. */
  ghost predicate NamesKnown(opts: seq<Bytes>) {
    && |opts| % 2 == 0
    && forall k :: IsNamePosition(opts, k) ==> Lower(opts[k]) == MATCH || Lower(opts[k]) == COUNT
  }

  /** Position `k` holds a name spelling `name` and a value after it. */
  predicate NamedAt(opts: seq<Bytes>, name: Bytes, k: int) {
    IsNamePosition(opts, k) && k + 1 < |opts| && Lower(opts[k]) == name
  }

  /** No name position after `k` spells `name`. */
  ghost predicate NoLaterName(opts: seq<Bytes>, name: Bytes, k: int) {
    forall l :: k < l ==> !NamedAt(opts, name, l)
  }

  /**
    The value after the last name spelling `name` (a lower-case word): none
    exactly when no name spells it, and otherwise the value of a name
    position spelling it with no later one that does.
   */
  function LastValue(opts: seq<Bytes>, name: Bytes): (v: Option<Bytes>)
    ensures v.None? <==> forall k :: !NamedAt(opts, name, k)
    ensures v.Some? ==> exists k :: NamedAt(opts, name, k) && opts[k + 1] == v.value && NoLaterName(opts, name, k)
    decreases |opts|
  {
    if |opts| < 2 then None
    else
      var later := LastValue(opts[2..], name);
      var v := if later.Some? then later else if Lower(opts[0]) == name then Some(opts[1]) else None;
      LastValueStep(opts, name, later, v);
      v
  }

  /** Names of `opts[2..]` are the names of `opts` two positions on. */
  lemma NamedShift(opts: seq<Bytes>, name: Bytes, k: int)
    requires |opts| >= 2 && k >= 0
    ensures NamedAt(opts[2..], name, k) <==> NamedAt(opts, name, k + 2)
  {
    assert (k + 2) % 2 == 0 <==> k % 2 == 0;
    if 0 <= k < |opts| - 2 {
      assert opts[2..][k] == opts[k + 2];
    }
  }

  lemma LastValueStep(opts: seq<Bytes>, name: Bytes, later: Option<Bytes>, v: Option<Bytes>)
    requires |opts| >= 2
    requires later.None? <==> forall k :: !NamedAt(opts[2..], name, k)
    requires later.Some? ==> exists k :: NamedAt(opts[2..], name, k) && opts[2..][k + 1] == later.value && NoLaterName(opts[2..], name, k)
    requires v == if later.Some? then later else if Lower(opts[0]) == name then Some(opts[1]) else None
    ensures v.None? <==> forall k :: !NamedAt(opts, name, k)
    ensures v.Some? ==> exists k :: NamedAt(opts, name, k) && opts[k + 1] == v.value && NoLaterName(opts, name, k)
  {
    var t := opts[2..];
    if later.Some? {
      var k :| NamedAt(t, name, k) && t[k + 1] == later.value && NoLaterName(t, name, k);
      NamedShift(opts, name, k);
      assert opts[k + 3] == t[k + 1];
      forall l | k + 2 < l
        ensures !NamedAt(opts, name, l)
      {
        NamedShift(opts, name, l - 2);
      }
      assert NamedAt(opts, name, k + 2) && opts[k + 3] == v.value && NoLaterName(opts, name, k + 2);
    } else {
      forall l | 2 <= l
        ensures !NamedAt(opts, name, l)
      {
        NamedShift(opts, name, l - 2);
      }
      if Lower(opts[0]) == name {
        assert NamedAt(opts, name, 0) && NoLaterName(opts, name, 0);
      } else {
        forall l
          ensures !NamedAt(opts, name, l)
        {
          if l < 2 {
            assert l != 0 ==> !IsNamePosition(opts, l);
          }
        }
      }
    }
  }

  lemma WellFormedTail(opts: seq<Bytes>, num: Parsers)
    requires |opts| >= 2
    ensures WellFormed(opts, num) <==>
      && (Lower(opts[0]) == MATCH || Lower(opts[0]) == COUNT)
      && (Lower(opts[0]) == COUNT ==> num.uint64(opts[1]).Some?)
      && WellFormed(opts[2..], num)
  {
    var t := opts[2..];
    if WellFormed(opts, num) {
      assert IsNamePosition(opts, 0);
      forall k | IsNamePosition(t, k)
        ensures (Lower(t[k]) == MATCH || Lower(t[k]) == COUNT) && (Lower(t[k]) == COUNT ==> num.uint64(t[k + 1]).Some?)
      {
        assert IsNamePosition(opts, k + 2) && t[k] == opts[k + 2] && t[k + 1] == opts[k + 3];
      }
    }
    if (Lower(opts[0]) == MATCH || Lower(opts[0]) == COUNT) && (Lower(opts[0]) == COUNT ==> num.uint64(opts[1]).Some?) && WellFormed(t, num) {
      forall k | IsNamePosition(opts, k)
        ensures (Lower(opts[k]) == MATCH || Lower(opts[k]) == COUNT) && (Lower(opts[k]) == COUNT ==> num.uint64(opts[k + 1]).Some?)
      {
        if k >= 2 {
          assert IsNamePosition(t, k - 2) && t[k - 2] == opts[k] && t[k - 1] == opts[k + 1];
        }
      }
    }
  }

  /**
    The option loop succeeds exactly on well-formed option lists, and then
    the pattern is the value of the last `match` and the limit the parsed
    value of the last `count`, each falling back to where it started: a
    later option overrides an earlier one.
   */
  lemma {:induction false} ParseMeaning(opts: seq<Bytes>, num: Parsers, args: ScanArgs)
    requires OptionsDefined(opts, num)
    ensures Parse(opts, num, args).Success? <==> WellFormed(opts, num)
    ensures Parse(opts, num, args).Success? ==>
      && Parse(opts, num, args).value.pattern == LastValue(opts, MATCH).GetOr(args.pattern)
      && Parse(opts, num, args).value.limit ==
           (match LastValue(opts, COUNT)
            case None => args.limit
            case Some(v) => num.uint64(v).GetOr(args.limit))
    decreases |opts|
  {
    if opts == [] {
    } else if |opts| == 1 {
      assert IsNamePosition(opts, 0);
    } else {
      WellFormedTail(opts, num);
      if Lower(opts[0]) == MATCH {
        ParseMeaning(opts[2..], num, args.(pattern := opts[1]));
        assert MATCH != COUNT by { assert MATCH[0] != COUNT[0]; }
      } else if Lower(opts[0]) == COUNT {
        if num.uint64(opts[1]).Some? {
          ParseMeaning(opts[2..], num, args.(limit := num.uint64(opts[1]).value));
          assert MATCH != COUNT by { assert MATCH[0] != COUNT[0]; }
        }
      }
    }
  }

  /**
    Which error the loop reports: with every `count` value parsing it can
    only be the syntax error of an unknown name, and with every name known
    it can only be the invalid-integer error of a `count` value.
   */
  lemma {:induction false} ParseErrorKind(opts: seq<Bytes>, num: Parsers, args: ScanArgs)
    requires OptionsDefined(opts, num)
    ensures Parse(opts, num, args).Failure? && CountsParse(opts, num) ==>
      Parse(opts, num, args).error == SyntaxErr
    ensures Parse(opts, num, args).Failure? && NamesKnown(opts) ==>
      Parse(opts, num, args).error == InvalidInt
    decreases |opts|
  {
    if opts == [] {
    } else if Lower(opts[0]) == MATCH || Lower(opts[0]) == COUNT {
      var t := opts[2..];
      assert CountsParse(opts, num) ==> CountsParse(t, num) by {
        if CountsParse(opts, num) {
          forall k | IsNamePosition(t, k) && k + 1 < |t| && Lower(t[k]) == COUNT
            ensures num.uint64(t[k + 1]).Some?
          {
            assert IsNamePosition(opts, k + 2) && t[k] == opts[k + 2] && t[k + 1] == opts[k + 3];
          }
        }
      }
      assert NamesKnown(opts) ==> NamesKnown(t) by {
        if NamesKnown(opts) {
          forall k | IsNamePosition(t, k)
            ensures Lower(t[k]) == MATCH || Lower(t[k]) == COUNT
          {
            assert IsNamePosition(opts, k + 2) && t[k] == opts[k + 2];
          }
        }
      }
      assert CountsParse(opts, num) && Lower(opts[0]) == COUNT ==> num.uint64(opts[1]).Some? by {
        if CountsParse(opts, num) && Lower(opts[0]) == COUNT {
          assert IsNamePosition(opts, 0);
        }
      }
      if Lower(opts[0]) == MATCH {
        ParseErrorKind(t, num, args.(pattern := opts[1]));
      } else if num.uint64(opts[1]).Some? {
        ParseErrorKind(t, num, args.(limit := num.uint64(opts[1]).value));
      }
    }
  }
  // ---------------------------------------------------------------------------
  // The first faulty option decides the error
  // ---------------------------------------------------------------------------

  /** The option at name position `k` is accepted by the loop. */
  predicate AcceptedAt(opts: seq<Bytes>, num: Parsers, k: int) {
    && IsNamePosition(opts, k) && k + 1 < |opts|
    && (Lower(opts[k]) == MATCH || (Lower(opts[k]) == COUNT && num.uint64(opts[k + 1]).Some?))
  }

  /** Every option before position `k` is accepted. */
  ghost predicate AcceptedBefore(opts: seq<Bytes>, num: Parsers, k: int) {
    forall j :: 0 <= j < k && j % 2 == 0 ==> AcceptedAt(opts, num, j)
  }

  /**
    The option at `k` is the first the loop rejects, with error `e`: an
    unknown name is a syntax error, a `count` whose value does not parse an
    invalid integer.
   */
  ghost predicate FirstFault(opts: seq<Bytes>, num: Parsers, k: int, e: Error) {
    && IsNamePosition(opts, k)
    && AcceptedBefore(opts, num, k)
    && ((Lower(opts[k]) != MATCH && Lower(opts[k]) != COUNT && e == SyntaxErr)
        || (Lower(opts[k]) == COUNT && k + 1 < |opts| && num.uint64(opts[k + 1]).None? && e == InvalidInt))
  }

  lemma AcceptedShift(opts: seq<Bytes>, num: Parsers, k: int)
    requires |opts| >= 2 && k >= 0
    ensures AcceptedAt(opts[2..], num, k) <==> AcceptedAt(opts, num, k + 2)
  {
    assert (k + 2) % 2 == 0 <==> k % 2 == 0;
    if 0 <= k < |opts| - 2 {
      assert opts[2..][k] == opts[k + 2];
      if k + 1 < |opts| - 2 {
        assert opts[2..][k + 1] == opts[k + 3];
      }
    }
  }

  /** A first fault of `opts[2..]` is a first fault of `opts` two positions on. */
  lemma FirstFaultShift(opts: seq<Bytes>, num: Parsers, k: int, e: Error)
    requires |opts| >= 2 && k >= 0 && AcceptedAt(opts, num, 0)
    ensures FirstFault(opts[2..], num, k, e) <==> FirstFault(opts, num, k + 2, e)
  {
    var t := opts[2..];
    assert (k + 2) % 2 == 0 <==> k % 2 == 0;
    forall j | 0 <= j
      ensures AcceptedAt(t, num, j) <==> AcceptedAt(opts, num, j + 2)
    {
      AcceptedShift(opts, num, j);
    }
    if AcceptedBefore(t, num, k) {
      forall j | 0 <= j < k + 2 && j % 2 == 0
        ensures AcceptedAt(opts, num, j)
      {
        if j >= 2 {
          assert AcceptedAt(t, num, j - 2);
        }
      }
    }
    if AcceptedBefore(opts, num, k + 2) {
      forall j | 0 <= j < k && j % 2 == 0
        ensures AcceptedAt(t, num, j)
      {
        assert AcceptedAt(opts, num, j + 2);
      }
    }
    if 0 <= k < |t| {
      assert t[k] == opts[k + 2];
      if k + 1 < |t| {
        assert t[k + 1] == opts[k + 3];
      }
    }
  }

  /**
    The loop reports the fault of the first option it rejects: it fails
    exactly when some option is a first fault, and then with that option's
    error, whatever faults follow it.
   */
  lemma {:induction false} ParseFirstFault(opts: seq<Bytes>, num: Parsers, args: ScanArgs, k: int, e: Error)
    requires OptionsDefined(opts, num)
    ensures FirstFault(opts, num, k, e) ==> Parse(opts, num, args) == Failure(e)
    ensures Parse(opts, num, args).Failure? ==> exists j :: FirstFault(opts, num, j, Parse(opts, num, args).error)
    decreases |opts|
  {
    if opts == [] {
    } else if Lower(opts[0]) == MATCH || (Lower(opts[0]) == COUNT && num.uint64(opts[1]).Some?) {
      var t := opts[2..];
      assert AcceptedAt(opts, num, 0);
      assert MATCH != COUNT by { assert MATCH[0] != COUNT[0]; }
      var args' := if Lower(opts[0]) == MATCH then args.(pattern := opts[1]) else args.(limit := num.uint64(opts[1]).value);
      assert Parse(opts, num, args) == Parse(t, num, args');
      if FirstFault(opts, num, k, e) {
        assert k != 0;
        FirstFaultShift(opts, num, k - 2, e);
        ParseFirstFault(t, num, args', k - 2, e);
      }
      if Parse(t, num, args').Failure? {
        ParseFirstFault(t, num, args', 0, e);
        var j :| FirstFault(t, num, j, Parse(t, num, args').error);
        FirstFaultShift(opts, num, j, Parse(t, num, args').error);
      }
    } else {
      assert FirstFault(opts, num, 0, Parse(opts, num, args).error);
      assert !AcceptedAt(opts, num, 0);
    }
  }

  /**
    The loop would read past the end of the request: every option before
    the last token is accepted, and that token is a lone `match` or `count`.
   */
  ghost predicate RunsOffEnd(opts: seq<Bytes>, num: Parsers) {
    exists k :: LoneNameAt(opts, num, k)
  }

  ghost predicate LoneNameAt(opts: seq<Bytes>, num: Parsers, k: int) {
    && IsNamePosition(opts, k) && k + 1 == |opts|
    && AcceptedBefore(opts, num, k)
    && (Lower(opts[k]) == MATCH || Lower(opts[k]) == COUNT)
  }

  lemma LoneNameShift(opts: seq<Bytes>, num: Parsers, k: int)
    requires |opts| >= 2 && k >= 0 && AcceptedAt(opts, num, 0)
    ensures LoneNameAt(opts[2..], num, k) <==> LoneNameAt(opts, num, k + 2)
  {
    var t := opts[2..];
    assert (k + 2) % 2 == 0 <==> k % 2 == 0;
    forall j | 0 <= j
      ensures AcceptedAt(t, num, j) <==> AcceptedAt(opts, num, j + 2)
    {
      AcceptedShift(opts, num, j);
    }
    if AcceptedBefore(t, num, k) {
      forall j | 0 <= j < k + 2 && j % 2 == 0
        ensures AcceptedAt(opts, num, j)
      {
        if j >= 2 {
          assert AcceptedAt(t, num, j - 2);
        }
      }
    }
    if AcceptedBefore(opts, num, k + 2) {
      forall j | 0 <= j < k && j % 2 == 0
        ensures AcceptedAt(t, num, j)
      {
        assert AcceptedAt(opts, num, j + 2);
      }
    }
    if 0 <= k < |t| {
      assert t[k] == opts[k + 2];
    }
  }

  /**
    The requests the model answers are exactly those on which the loop
    never runs off the end of the request.
   */
  lemma {:induction false} OptionsDefinedExactly(opts: seq<Bytes>, num: Parsers)
    ensures OptionsDefined(opts, num) <==> !RunsOffEnd(opts, num)
    decreases |opts|
  {
    if |opts| == 1 {
      if OptionsDefined(opts, num) {
        forall k
          ensures !LoneNameAt(opts, num, k)
        {
        }
      } else {
        assert LoneNameAt(opts, num, 0);
      }
    } else if |opts| >= 2 {
      var t := opts[2..];
      if AcceptedAt(opts, num, 0) {
        OptionsDefinedExactly(t, num);
        assert OptionsDefined(opts, num) == OptionsDefined(t, num);
        if RunsOffEnd(t, num) {
          var k :| LoneNameAt(t, num, k);
          LoneNameShift(opts, num, k);
        }
        if RunsOffEnd(opts, num) {
          var k :| LoneNameAt(opts, num, k);
          assert k >= 2;
          LoneNameShift(opts, num, k - 2);
        }
      } else {
        forall k
          ensures !LoneNameAt(opts, num, k)
        {
          if k != 0 && IsNamePosition(opts, k) {
            assert !AcceptedAt(opts, num, 0);
          }
        }
      }
    }
  }
}
