/** Order-preserving removal of repetitions, by key. */
module Dedupe {

  function Keys<T, K>(s: seq<T>, key: T -> K): set<K> {
    set i | 0 <= i < |s| :: key(s[i])
  }

  /** The elements of a list whose key no earlier element has. */
  function Firsts<T, K(==)>(s: seq<T>, key: T -> K): seq<T> {
    if s == [] then []
    else
      var init, last := s[..|s| - 1], s[|s| - 1];
      if key(last) in Keys(init, key) then Firsts(init, key) else Firsts(init, key) + [last]
  }

  lemma KeysSnoc<T, K>(s: seq<T>, x: T, key: T -> K)
    ensures Keys(s + [x], key) == Keys(s, key) + {key(x)}
  {
    var t := s + [x];
    assert t[|s|] == x;
    forall k | k in Keys(s, key) ensures k in Keys(t, key) {
      var i :| 0 <= i < |s| && key(s[i]) == k;
      assert t[i] == s[i];
    }
  }

  lemma FirstsSnoc<T, K>(s: seq<T>, x: T, key: T -> K)
    ensures Firsts(s + [x], key) == if key(x) in Keys(s, key) then Firsts(s, key) else Firsts(s, key) + [x]
  {
    assert (s + [x])[..|s|] == s;
  }

  /** The keys of the kept elements are all the keys, each once. */
  lemma {:induction false} FirstsKeys<T, K>(s: seq<T>, key: T -> K)
    ensures Keys(Firsts(s, key), key) == Keys(s, key)
    ensures forall i, j :: 0 <= i < j < |Firsts(s, key)| ==> key(Firsts(s, key)[i]) != key(Firsts(s, key)[j])
  {
    if s != [] {
      var init, last := s[..|s| - 1], s[|s| - 1];
      assert s == init + [last];
      FirstsKeys(init, key);
      KeysSnoc(init, last, key);
      if key(last) !in Keys(init, key) {
        var kept := Firsts(init, key);
        KeysSnoc(kept, last, key);
        assert forall i :: 0 <= i < |kept| ==> key(kept[i]) in Keys(kept, key);
      }
    }
  }

  /** What is kept is kept whatever follows. */
  lemma {:induction false} FirstsGrow<T, K>(s: seq<T>, t: seq<T>, key: T -> K)
    ensures Firsts(s, key) <= Firsts(s + t, key)
  {
    if t == [] {
      assert s + t == s;
    } else {
      FirstsGrow(s, t[..|t| - 1], key);
      assert s + t == s + t[..|t| - 1] + [t[|t| - 1]];
      FirstsSnoc(s + t[..|t| - 1], t[|t| - 1], key);
    }
  }

  /** For every element, the list keeps the first one with the same key. */
  lemma {:induction false} FirstsKeepsFirst<T, K>(s: seq<T>, key: T -> K, i: nat)
    requires i < |s|
    requires forall j :: 0 <= j < i ==> key(s[j]) != key(s[i])
    ensures s[i] in Firsts(s, key)
  {
    assert s == s[..i] + [s[i]] + s[i + 1..];
    FirstsSnoc(s[..i], s[i], key);
    FirstsGrow(s[..i] + [s[i]], s[i + 1..], key);
    var f := Firsts(s[..i] + [s[i]], key);
    assert f[|f| - 1] == s[i];
    assert Firsts(s, key)[|f| - 1] == s[i];
  }
}
