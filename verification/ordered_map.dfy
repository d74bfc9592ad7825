/**
  The ordered containers the handlers build and walk: a `std::map<Bytes,
  Bytes>` filled by repeated `kvs[key] = val`, a `std::set<Bytes>` filled by
  repeated `insert`, and the ascending iteration over a map's entries.
 */
module OrderedMap {
  import opened ByteStrings

  type Pair = (Bytes, Bytes)

  // ---------------------------------------------------------------------------
  // Ascending enumeration of a finite set of keys
  // ---------------------------------------------------------------------------

  predicate IsLeast(k: Bytes, s: set<Bytes>) {
    k in s && forall x :: x in s && x != k ==> Below(k, x)
  }

  predicate StrictlyAscending(ks: seq<Bytes>) {
    forall i, j :: 0 <= i < j < |ks| ==> Below(ks[i], ks[j])
  }

  lemma {:induction false} LeastExists(s: set<Bytes>)
    requires s != {}
    ensures exists k :: IsLeast(k, s)
    decreases |s|
  {
    var x :| x in s;
    if s - {x} == {} {
      forall z | z in s
        ensures z == x
      {
        assert z !in s - {x};
      }
      assert IsLeast(x, s);
    } else {
      LeastExists(s - {x});
      var y :| IsLeast(y, s - {x});
      BelowTotal(x, y);
      if Below(x, y) {
        forall z | z in s && z != x
          ensures Below(x, z)
        {
          if z != y {
            BelowTransitive(x, y, z);
          }
        }
        assert IsLeast(x, s);
      } else {
        assert IsLeast(y, s);
      }
    }
  }

  lemma LeastUnique(s: set<Bytes>, a: Bytes, b: Bytes)
    requires IsLeast(a, s) && IsLeast(b, s)
    ensures a == b
  {
    if a != b {
      BelowAsymmetric(a, b);
    }
  }

  /** The smallest key of a non-empty set: the first one a `std::map` visits. */
  function Least(s: set<Bytes>): (k: Bytes)
    requires s != {}
    ensures IsLeast(k, s)
  {
    LeastExists(s);
    assert forall a, b :: IsLeast(a, s) && IsLeast(b, s) ==> a == b by {
      forall a, b | IsLeast(a, s) && IsLeast(b, s)
        ensures a == b
      {
        LeastUnique(s, a, b);
      }
    }
    var k :| IsLeast(k, s);
    k
  }

  /** The keys of `s` in the order a `std::map` or `std::set` iterates them. */
  function Ascending(s: set<Bytes>): (ks: seq<Bytes>)
    ensures |ks| == |s|
    ensures forall x :: x in ks <==> x in s
    ensures StrictlyAscending(ks)
    decreases |s|
  {
    if s == {} then []
    else
      var k := Least(s);
      var rest := Ascending(s - {k});
      assert forall j :: 0 <= j < |rest| ==> Below(k, rest[j]) by {
        forall j | 0 <= j < |rest|
          ensures Below(k, rest[j])
        {
          assert rest[j] in s - {k};
        }
      }
      [k] + rest
  }

  /**
    Any strictly ascending listing of exactly the keys of `s` is the one
    `Ascending` gives: iteration order is fully determined by the key set.
   */
  lemma {:induction false} AscendingUnique(s: set<Bytes>, ks: seq<Bytes>)
    requires StrictlyAscending(ks)
    requires forall x :: x in ks <==> x in s
    ensures ks == Ascending(s)
    decreases |ks|
  {
    if ks == [] {
      assert s == {};
    } else {
      assert ks[0] in s;
      var k := Least(s);
      assert ks[0] == k by {
        forall x | x in s && x != ks[0]
          ensures Below(ks[0], x)
        {
          var j :| 0 <= j < |ks| && ks[j] == x;
          assert j != 0;
        }
        LeastUnique(s, ks[0], k);
      }
      forall x
        ensures x in ks[1..] <==> x in s - {k}
      {
        if x in ks[1..] {
          var j :| 1 <= j < |ks| && ks[j] == x;
          assert Below(ks[0], ks[j]);
          BelowIrreflexive(x);
        }
        if x in s - {k} {
          var j :| 0 <= j < |ks| && ks[j] == x;
          assert j != 0;
          assert ks[j] == ks[1..][j - 1];
        }
      }
      AscendingUnique(s - {k}, ks[1..]);
    }
  }

  /** The (key, value) entries of `m` in iteration order. */
  function Entries(m: map<Bytes, Bytes>): (es: seq<Pair>)
    ensures |es| == |m|
    ensures forall i :: 0 <= i < |es| ==> es[i].0 in m && es[i].1 == m[es[i].0]
    ensures forall k :: k in m ==> exists i :: 0 <= i < |es| && es[i].0 == k
    ensures forall i, j :: 0 <= i < j < |es| ==> Below(es[i].0, es[j].0)
  {
    var ks := Ascending(m.Keys);
    var es := seq(|ks|, i requires 0 <= i < |ks| => (ks[i], m[ks[i]]));
    EntriesCover(m, ks, es);
    es
  }

  lemma EntriesCover(m: map<Bytes, Bytes>, ks: seq<Bytes>, es: seq<Pair>)
    requires forall x :: x in ks <==> x in m
    requires |es| == |ks| && forall i :: 0 <= i < |ks| ==> es[i].0 == ks[i]
    ensures forall k :: k in m ==> exists i :: 0 <= i < |es| && es[i].0 == k
  {
    forall k | k in m
      ensures exists i :: 0 <= i < |es| && es[i].0 == k
    {
      var i :| 0 <= i < |ks| && ks[i] == k;
      assert es[i].0 == k;
    }
  }

  /**
    The entries of a map are the only listing that is strictly ascending by
    key, names every key of the map and gives each its value.
   */
  lemma EntriesUnique(m: map<Bytes, Bytes>, es: seq<Pair>)
    requires forall i :: 0 <= i < |es| ==> es[i].0 in m && es[i].1 == m[es[i].0]
    requires forall k :: k in m ==> exists i :: 0 <= i < |es| && es[i].0 == k
    requires forall i, j :: 0 <= i < j < |es| ==> Below(es[i].0, es[j].0)
    ensures es == Entries(m)
  {
    var ks := Keys(es);
    ProjectionsAt(es);
    assert StrictlyAscending(ks);
    forall x
      ensures x in ks <==> x in m.Keys
    {
      if x in m {
        var i :| 0 <= i < |es| && es[i].0 == x;
        assert ks[i] == x;
      }
    }
    AscendingUnique(m.Keys, ks);
    var fs := Entries(m);
    assert |fs| == |es|;
    forall i | 0 <= i < |es|
      ensures es[i] == fs[i]
    {
      assert fs[i].0 == Ascending(m.Keys)[i];
    }
  }

  function Keys(es: seq<Pair>): seq<Bytes> {
    seq(|es|, i requires 0 <= i < |es| => es[i].0)
  }

  function Values(es: seq<Pair>): seq<Bytes> {
    seq(|es|, i requires 0 <= i < |es| => es[i].1)
  }

  /** The fields of a map's entries list each key once, in ascending order. */
  lemma KeysOfEntries(m: map<Bytes, Bytes>)
    ensures |Keys(Entries(m))| == |m|
    ensures forall f :: f in Keys(Entries(m)) <==> f in m
    ensures StrictlyAscending(Keys(Entries(m)))
  {
    var es := Entries(m);
    var ks := Keys(es);
    ProjectionsAt(es);
    forall f
      ensures f in ks <==> f in m
    {
      if f in m {
        var i :| 0 <= i < |es| && es[i].0 == f;
        assert ks[i] == f;
      }
    }
  }

  lemma ProjectionsAt(es: seq<Pair>)
    ensures |Keys(es)| == |es| && forall i :: 0 <= i < |es| ==> Keys(es)[i] == es[i].0
    ensures |Values(es)| == |es| && forall i :: 0 <= i < |es| ==> Values(es)[i] == es[i].1
  {
  }

  // ---------------------------------------------------------------------------
  // Filling a map by subscript assignment, last write wins
  // ---------------------------------------------------------------------------

  /** No later pair in `ps` names the same key as pair `i`. */
  predicate IsLastWrite(ps: seq<Pair>, i: int)
    requires 0 <= i < |ps|
  {
    forall j :: i < j < |ps| ==> ps[j].0 != ps[i].0
  }

  /** `m` binds exactly the keys written in `ps`, each to its last write. */
  ghost predicate IsAssignmentOf(ps: seq<Pair>, m: map<Bytes, Bytes>) {
    && (forall k :: k in m <==> exists i :: 0 <= i < |ps| && ps[i].0 == k)
    && (forall i {:trigger IsLastWrite(ps, i)} :: 0 <= i < |ps| && IsLastWrite(ps, i) ==> ps[i].0 in m && m[ps[i].0] == ps[i].1)
  }

  /**
    The map left by `m[k] = v` for each pair in turn, starting empty. Its
    keys are exactly the keys written, each bound to the value of its last
    write, and it has no more entries than there were writes.
   */
  function Assign(ps: seq<Pair>): (m: map<Bytes, Bytes>)
    ensures IsAssignmentOf(ps, m)
    ensures |m| <= |ps|
    decreases |ps|
  {
    if ps == [] then map[]
    else
      var n := |ps| - 1;
      var prior := Assign(ps[..n]);
      AssignStep(ps, prior);
      prior[ps[n].0 := ps[n].1]
  }

  lemma AssignStep(ps: seq<Pair>, prior: map<Bytes, Bytes>)
    requires ps != []
    requires IsAssignmentOf(ps[..|ps| - 1], prior)
    requires |prior| <= |ps| - 1
    ensures IsAssignmentOf(ps, prior[ps[|ps| - 1].0 := ps[|ps| - 1].1])
    ensures |prior[ps[|ps| - 1].0 := ps[|ps| - 1].1]| <= |ps|
  {
    var n := |ps| - 1;
    var m := prior[ps[n].0 := ps[n].1];
    forall k
      ensures k in m <==> exists i :: 0 <= i < |ps| && ps[i].0 == k
    {
      if k in prior {
        var i :| 0 <= i < n && ps[..n][i].0 == k;
        assert ps[i].0 == k;
      }
      if exists i :: 0 <= i < |ps| && ps[i].0 == k {
        var i :| 0 <= i < |ps| && ps[i].0 == k;
        if i < n {
          assert ps[..n][i].0 == k;
        }
      }
    }
    forall i | 0 <= i < |ps| && IsLastWrite(ps, i)
      ensures ps[i].0 in m && m[ps[i].0] == ps[i].1
    {
      if i < n {
        assert ps[..n][i] == ps[i];
        assert IsLastWrite(ps[..n], i);
      }
    }
    assert m.Keys == prior.Keys + {ps[n].0};
  }

  // ---------------------------------------------------------------------------
  // Filling a set by insertion, duplicates collapsing
  // ---------------------------------------------------------------------------

  predicate NoDuplicates(s: seq<Bytes>) {
    forall i, j :: 0 <= i < j < |s| ==> s[i] != s[j]
  }

  /**
    The set left by `insert`ing each element in turn: its members are the
    elements of `s`, and it is exactly as large as `s` when `s` repeats
    nothing, smaller otherwise.
   */
  function Collect(s: seq<Bytes>): (r: set<Bytes>)
    ensures forall x :: x in r <==> x in s
    ensures |r| <= |s|
    ensures |r| == |s| <==> NoDuplicates(s)
    decreases |s|
  {
    if s == [] then {}
    else
      var prior := Collect(s[..|s| - 1]);
      CollectStep(s, prior);
      prior + {s[|s| - 1]}
  }

  lemma CollectStep(s: seq<Bytes>, prior: set<Bytes>)
    requires s != []
    requires forall x :: x in prior <==> x in s[..|s| - 1]
    requires |prior| <= |s| - 1
    requires |prior| == |s| - 1 <==> NoDuplicates(s[..|s| - 1])
    ensures forall x :: x in prior + {s[|s| - 1]} <==> x in s
    ensures |prior + {s[|s| - 1]}| <= |s|
    ensures |prior + {s[|s| - 1]}| == |s| <==> NoDuplicates(s)
  {
    var n := |s| - 1;
    assert s == s[..n] + [s[n]];
    if NoDuplicates(s[..n]) && s[n] !in s[..n] {
      forall i, j | 0 <= i < j < |s|
        ensures s[i] != s[j]
      {
        assert s[..n][i] == s[i];
        if j < n {
          assert s[..n][j] == s[j];
        }
      }
    }
    if NoDuplicates(s) {
      assert NoDuplicates(s[..n]) by {
        forall i, j | 0 <= i < j < n
          ensures s[..n][i] != s[..n][j]
        {
          assert s[..n][i] == s[i] && s[..n][j] == s[j];
        }
      }
    }
  }
}
