/** `count_chars` of src/main.rs: the frequency of every character. */
module Frequencies {

  /** `m` maps exactly the characters of `s` to their number of occurrences. */
  ghost predicate IsFrequencyMap(m: map<char, nat>, s: string)
  {
    && (forall c :: c in m <==> c in s)
    && (forall c :: c in m ==> m[c] == multiset(s)[c])
  }

  /** `count_chars`: one pass over the characters, incrementing a
      `HashMap` entry that starts at 0. */
  method CountChars(s: string) returns (m: map<char, nat>)
    ensures forall c :: c in m <==> c in s
    ensures forall c :: c in m ==> m[c] == multiset(s)[c] && m[c] >= 1
  {
    m := map[];
    for i := 0 to |s|
      invariant forall c :: c in m <==> c in s[..i]
      invariant forall c :: c in m ==> m[c] == multiset(s[..i])[c]
    {
      assert s[..i + 1] == s[..i] + [s[i]];
      var ch := s[i];
      var n := if ch in m then m[ch] else 0;  // `entry(char).or_insert(0)`
      m := m[ch := n + 1];
    }
    assert s[..|s|] == s;
  }

  /** The sum of the counts in a map. */
  ghost function Total(m: map<char, nat>): nat
    decreases |m|
  {
    if m == map[] then 0
    else
      var c :| c in m;
      m[c] + Total(m - {c})
  }

  /** `Total` may take the counts in any order. */
  lemma {:induction false} TotalRemove(m: map<char, nat>, c: char)
    requires c in m
    ensures Total(m) == m[c] + Total(m - {c})
    decreases |m|
  {
    var d :| d in m && Total(m) == m[d] + Total(m - {d});
    if d != c {
      assert (m - {d}).Keys == m.Keys - {d};
      assert (m - {c}).Keys == m.Keys - {c};
      TotalRemove(m - {d}, c);
      TotalRemove(m - {c}, d);
      assert m - {d} - {c} == m - {c} - {d};
    }
  }

  /** One occurrence of `x` fewer: the count goes down by one, and the entry
      goes away when it reaches zero. */
  function Decrement(m: map<char, nat>, x: char): (r: map<char, nat>)
    requires x in m
    ensures x in r <==> m[x] > 1
    ensures x in r ==> r[x] == m[x] - 1
    ensures forall c :: c != x ==> (c in r <==> c in m) && (c in r ==> r[c] == m[c])
  {
    if m[x] <= 1 then m - {x} else m[x := m[x] - 1]
  }

  /** The frequency map of `s` with its last character taken off once is the
      frequency map of the rest of `s`. */
  lemma {:induction false} FrequencyMapDropLast(m: map<char, nat>, s: string)
    requires IsFrequencyMap(m, s) && s != []
    ensures s[|s| - 1] in m
    ensures IsFrequencyMap(Decrement(m, s[|s| - 1]), s[..|s| - 1])
  {
    var t, x := s[..|s| - 1], s[|s| - 1];
    assert s == t + [x];
    assert multiset(s) == multiset(t) + multiset{x};
    assert x in m;
    var m' := Decrement(m, x);
    forall c
      ensures c in m' <==> c in t
    {
      if c != x {
        assert c in s <==> c in t;
      } else {
        assert multiset(t)[x] == m[x] - 1;
      }
    }
  }

  /** The counts of a frequency map add up to the length of the string. */
  lemma {:induction false} CountsSumToLength(m: map<char, nat>, s: string)
    requires IsFrequencyMap(m, s)
    ensures Total(m) == |s|
    decreases |s|
  {
    if s == [] {
      assert m.Keys == {};
      assert m == map[];
    } else {
      var x := s[|s| - 1];
      FrequencyMapDropLast(m, s);
      var m' := Decrement(m, x);
      CountsSumToLength(m', s[..|s| - 1]);
      TotalRemove(m, x);
      if m[x] > 1 {
        TotalRemove(m', x);
        assert m' - {x} == m - {x};
      }
    }
  }
}
