/** The key orders of the two ordered maps the engine iterates: `std::map<unsigned long, …>`
    (ascending numbers) and `std::map<std::string, …>` (lexicographic strings). */
module KeyOrder {

  // ---- Sequence numbers ----

  lemma {:induction false} HasLeast(ks: set<nat>)
    requires ks != {}
    ensures exists m :: m in ks && forall k :: k in ks ==> m <= k
  {
    var w :| w in ks;
    LeastAtOrAbove(ks, 0, w);
  }

  /** Counting up from a lower bound `n` of `ks` reaches its least element by `w`. */
  lemma {:induction false} LeastAtOrAbove(ks: set<nat>, n: nat, w: nat)
    requires w in ks && n <= w
    requires forall k :: k in ks ==> n <= k
    ensures exists m :: m in ks && forall k :: k in ks ==> m <= k
    decreases w - n
  {
    if n in ks {
      assert forall k :: k in ks ==> n <= k;
    } else {
      LeastAtOrAbove(ks, n + 1, w);
    }
  }

  /** The smallest key of a non-empty set. */
  ghost function Least(ks: set<nat>): (m: nat)
    requires ks != {}
    ensures m in ks && forall k :: k in ks ==> m <= k
  {
    HasLeast(ks);
    var m :| m in ks && forall k :: k in ks ==> m <= k; m
  }

  /** The keys of `ks` in the order a `std::map` visits them: smallest first. Every key of the
      set is listed, and nothing else. */
  ghost function Ascending(ks: set<nat>): (r: seq<nat>)
    ensures |r| == |ks|
    ensures forall i :: 0 <= i < |r| ==> r[i] in ks
    ensures forall k :: k in ks ==> k in r
    decreases |ks|
  {
    if ks == {} then []
    else
      var m := Least(ks);
      var rest := Ascending(ks - {m});
      assert forall k :: k in ks ==> k == m || k in ks - {m};
      [m] + rest
  }

  predicate Increasing(r: seq<nat>) {
    forall i, j :: 0 <= i < j < |r| ==> r[i] < r[j]
  }

  /** A `std::map` walk takes the least key first and carries on with the rest. */
  lemma {:induction false} AscendingStep(ks: set<nat>, n: nat)
    requires n in ks && forall k :: k in ks ==> n <= k
    ensures Ascending(ks) == [n] + Ascending(ks - {n})
  {
    assert n == Least(ks);
  }

  /** One step of a walk over `all == Ascending(ks)` that has visited its first `t` keys and
      has `remaining` left: the least remaining key is the next one. */
  lemma {:induction false} AscendingWalk(all: seq<nat>, remaining: set<nat>, t: nat, n: nat)
    requires t <= |all| && Ascending(remaining) == all[t..]
    requires n in remaining && forall k :: k in remaining ==> n <= k
    ensures t < |all| && all[t] == n && Ascending(remaining - {n}) == all[t + 1..]
  {
    AscendingStep(remaining, n);
    assert all[t + 1..] == all[t..][1..];
  }

  /** `Ascending` lists the keys in strictly increasing order. */
  lemma {:induction false} AscendingIncreases(ks: set<nat>)
    ensures Increasing(Ascending(ks))
    decreases |ks|
  {
    if ks != {} {
      var m := Least(ks);
      var rest := Ascending(ks - {m});
      AscendingIncreases(ks - {m});
      var r := [m] + rest;
      assert Ascending(ks) == r;
      forall i, j | 0 <= i < j < |r| ensures r[i] < r[j] {
        assert r[j] == rest[j - 1] && rest[j - 1] in ks - {m};
        if i > 0 {
          assert r[i] == rest[i - 1];
          assert rest[i - 1] < rest[j - 1];
        } else {
          assert rest[j - 1] in ks;
          assert m <= rest[j - 1];
          assert m != rest[j - 1];
        }
      }
    }
  }

  // ---- Symbols ----

  /** `std::string` ordering: lexicographic by character, a proper prefix first. */
  predicate LexLess(a: string, b: string)
    decreases |a|
  {
    if a == [] then b != []
    else if b == [] then false
    else if a[0] != b[0] then a[0] < b[0]
    else LexLess(a[1..], b[1..])
  }

  lemma {:induction false} LexLessIrreflexive(a: string)
    ensures !LexLess(a, a)
    decreases |a|
  {
    if a != [] {
      LexLessIrreflexive(a[1..]);
    }
  }

  lemma {:induction false} LexLessTransitive(a: string, b: string, c: string)
    requires LexLess(a, b) && LexLess(b, c)
    ensures LexLess(a, c)
    decreases |a|
  {
    if a != [] && b != [] && c != [] && a[0] == b[0] == c[0] {
      LexLessTransitive(a[1..], b[1..], c[1..]);
    }
  }

  lemma {:induction false} LexLessTotal(a: string, b: string)
    requires a != b
    ensures LexLess(a, b) || LexLess(b, a)
    decreases |a|
  {
    if a != [] && b != [] && a[0] == b[0] {
      assert a == [a[0]] + a[1..] && b == [b[0]] + b[1..];
      LexLessTotal(a[1..], b[1..]);
    }
  }

  lemma {:induction false} HasLexLeast(ss: set<string>)
    requires ss != {}
    ensures exists m :: m in ss && forall s :: s in ss && s != m ==> LexLess(m, s)
    decreases |ss|
  {
    var x :| x in ss;
    if ss - {x} != {} {
      HasLexLeast(ss - {x});
      var m :| m in ss - {x} && forall s :: s in ss - {x} && s != m ==> LexLess(m, s);
      LexLessTotal(x, m);
      if LexLess(x, m) {
        forall s | s in ss && s != x ensures LexLess(x, s) {
          if s != m { LexLessTransitive(x, m, s); }
        }
      } else {
        assert forall s :: s in ss && s != m ==> LexLess(m, s);
      }
    } else {
      forall s | s in ss ensures s == x { assert s !in ss - {x}; }
    }
  }

  /** The lexicographically smallest symbol of a non-empty set. */
  ghost function LexLeast(ss: set<string>): (m: string)
    requires ss != {}
    ensures m in ss && forall s :: s in ss && s != m ==> LexLess(m, s)
  {
    HasLexLeast(ss);
    var m :| m in ss && forall s :: s in ss && s != m ==> LexLess(m, s); m
  }

  /** The symbols of `ss` in the order a `std::map<std::string, …>` visits them. */
  ghost function LexAscending(ss: set<string>): (r: seq<string>)
    ensures |r| == |ss|
    ensures forall i :: 0 <= i < |r| ==> r[i] in ss
    ensures forall s :: s in ss ==> s in r
    ensures forall i, j :: 0 <= i < j < |r| ==> LexLess(r[i], r[j])
    decreases |ss|
  {
    if ss == {} then []
    else
      var m := LexLeast(ss);
      var rest := LexAscending(ss - {m});
      assert forall s :: s in ss ==> s == m || s in ss - {m};
      [m] + rest
  }

  /** The symbol that is lexicographically below every other one of the set is its `LexLeast`. */
  lemma {:induction false} LexLeastUnique(ss: set<string>, m: string)
    requires m in ss && forall s :: s in ss && s != m ==> LexLess(m, s)
    ensures LexLeast(ss) == m
  {
    var l := LexLeast(ss);
    if l != m {
      LexLessTransitive(m, l, m);
      LexLessIrreflexive(m);
    }
  }

  /** `std::map::begin` over string keys: picks the lexicographically least symbol. */
  method PickLexLeast(ss: set<string>) returns (m: string)
    requires ss != {}
    ensures m == LexLeast(ss)
  {
    HasLexLeast(ss);
    m :| m in ss && forall s :: s in ss && s != m ==> LexLess(m, s);
    LexLeastUnique(ss, m);
  }
}
