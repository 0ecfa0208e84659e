/** An insertion-ordered counting table, the way the breaker uses a Ruby Hash:
    `keys` lists every key in the order it was first stored (the Hash's
    enumeration order) and `counts` maps each key to its count. */
module Tallies {

  datatype Tally<T(==)> = Tally(keys: seq<T>, counts: map<T, nat>)
  {
    /** The count of `x`, zero when it was never stored (`Hash.new(0)`). */
    function Get(x: T): nat {
      if x in counts then counts[x] else 0
    }

    /** One more occurrence of `x`; a new key goes to the end of the order. */
    function Bump(x: T): Tally<T> {
      if x in counts then Tally(keys, counts[x := counts[x] + 1])
      else Tally(keys + [x], counts[x := 1])
    }

    /** The keys are distinct and are exactly the keys of the map. */
    ghost predicate Valid() {
      (forall i, j :: 0 <= i < j < |keys| ==> keys[i] != keys[j]) &&
      (forall x | x in counts :: x in keys) &&
      (forall i | 0 <= i < |keys| :: keys[i] in counts)
    }
  }

  /** The table built by counting the elements of `s` from left to right;
      each element adds at most one key. */
  function TallyOf<T(==)>(s: seq<T>): (t: Tally<T>)
    ensures |t.keys| <= |s|
    decreases |s|
  {
    if s == [] then Tally([], map[]) else TallyOf(s[..|s| - 1]).Bump(s[|s| - 1])
  }

  /** The sum of the counts of the keys in `ks`. */
  function Total<T(==)>(t: Tally<T>, ks: seq<T>): nat
    decreases |ks|
  {
    if ks == [] then 0 else Total(t, ks[..|ks| - 1]) + t.Get(ks[|ks| - 1])
  }

  /** Counting `s` yields a well-formed table whose keys are the elements of
      `s` and whose count of each value is its number of occurrences. */
  lemma {:induction false} TallyOfCounts<T>(s: seq<T>)
    ensures TallyOf(s).Valid()
    ensures forall x :: x in TallyOf(s).counts <==> x in s
    ensures forall x :: TallyOf(s).Get(x) == multiset(s)[x]
    ensures forall i :: 0 <= i < |TallyOf(s).keys| ==> TallyOf(s).keys[i] in s
  {
    if s != [] {
      var init, x := s[..|s| - 1], s[|s| - 1];
      TallyOfCounts(init);
      assert s == init + [x];
      var t := TallyOf(init);
      forall y ensures y in s <==> y in init || y == x {
        if y in s {
          var k :| 0 <= k < |s| && s[k] == y;
          if k < |init| { assert init[k] == y; }
        }
      }
      if x !in t.counts {
        var ks := t.keys + [x];
        forall i, j | 0 <= i < j < |ks| ensures ks[i] != ks[j] {
          if j == |t.keys| { assert t.keys[i] in t.keys; }
        }
      }
    }
  }

  /** The order of a table only grows at the end: counting a prefix of `s`
      gives a prefix of the order of counting `s`. */
  lemma {:induction false} TallyOfPrefix<T>(s: seq<T>, m: nat)
    requires m <= |s|
    ensures TallyOf(s[..m]).keys <= TallyOf(s).keys
    decreases |s|
  {
    if m < |s| {
      var init := s[..|s| - 1];
      assert s[..m] == init[..m];
      TallyOfPrefix(init, m);
    } else {
      assert s[..m] == s;
    }
  }

  /** The order of a table is the order of first appearance: a key that
      occurs among the first `m` elements comes before one that does not. */
  lemma KeyOrder<T>(s: seq<T>, m: nat, i: nat, j: nat)
    requires m <= |s| && i < |TallyOf(s).keys| && j < |TallyOf(s).keys|
    requires TallyOf(s).keys[i] in s[..m] && TallyOf(s).keys[j] !in s[..m]
    ensures i < j
  {
    var t := TallyOf(s);
    var p := s[..m];
    var pre := TallyOf(p);
    TallyOfCounts(s);
    TallyOfCounts(p);
    TallyOfPrefix(s, m);
    assert t.keys[i] in pre.counts;
    var h :| 0 <= h < |pre.keys| && pre.keys[h] == t.keys[i];
    assert t.keys[h] == pre.keys[h];
    assert h == i;
    assert j >= |pre.keys|;
  }

  /** Bumping `x` raises the total over distinct keys by one exactly when `x`
      is among them. */
  lemma {:induction false} TotalBump<T>(t: Tally<T>, x: T, ks: seq<T>)
    requires forall i, j :: 0 <= i < j < |ks| ==> ks[i] != ks[j]
    ensures Total(t.Bump(x), ks) == Total(t, ks) + (if x in ks then 1 else 0)
    decreases |ks|
  {
    if ks != [] {
      var init := ks[..|ks| - 1];
      TotalBump(t, x, init);
      assert ks == init + [ks[|ks| - 1]];
    }
  }

  /** The counts of a table built from `s` add up to the length of `s`. */
  lemma {:induction false} TallyOfTotal<T>(s: seq<T>)
    ensures Total(TallyOf(s), TallyOf(s).keys) == |s|
  {
    if s != [] {
      var init, x := s[..|s| - 1], s[|s| - 1];
      var t := TallyOf(init);
      TallyOfTotal(init);
      TallyOfCounts(init);
      TotalBump(t, x, t.keys);
      if x !in t.counts {
        var ks := t.keys + [x];
        assert ks[..|ks| - 1] == t.keys;
        assert t.Bump(x).Get(x) == 1;
      }
    }
  }

  /** Ruby's `max_by`: the index of the first key among the first `n` whose
      count is largest; a later key replaces it only with a strictly larger
      count, so ties go to the key stored earliest. */
  function MaxBy<T(==)>(t: Tally<T>, n: nat): (j: nat)
    requires 0 < n <= |t.keys|
    ensures j < n
    ensures forall i :: 0 <= i < n ==> t.Get(t.keys[i]) <= t.Get(t.keys[j])
    ensures forall i :: 0 <= i < j ==> t.Get(t.keys[i]) < t.Get(t.keys[j])
  {
    if n == 1 then 0
    else
      var j := MaxBy(t, n - 1);
      if t.Get(t.keys[n - 1]) > t.Get(t.keys[j]) then n - 1 else j
  }
}
