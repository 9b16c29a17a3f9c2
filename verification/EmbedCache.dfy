/** The least-recently-used embedding cache. A call first touches every text it already holds,
    then asks the inner embedder for all the others at once and inserts them, evicting inside
    the insertion loop. */
module EmbedCache {
  import opened Basics
  import opened Permutations

  // ----- recency ------------------------------------------------------------

  function Without<K(==)>(s: seq<K>, k: K): seq<K> {
    if s == [] then []
    else if s[0] == k then Without(s[1..], k)
    else [s[0]] + Without(s[1..], k)
  }

  /** `order` lists the keys of a set, each once. */
  ghost predicate Lists<K>(order: seq<K>, keys: set<K>) {
    if order == [] then keys == {}
    else order[0] in keys && Lists(order[1..], keys - {order[0]})
  }

  /** The distinct keys of a log, ordered by their last occurrence. */
  function ByLastUse<K(==)>(log: seq<K>): seq<K> {
    if log == [] then []
    else
      var k := log[|log| - 1];
      Without(ByLastUse(log[..|log| - 1]), k) + [k]
  }

  function LastN<K>(s: seq<K>, n: nat): seq<K> {
    if |s| <= n then s else s[|s| - n..]
  }

  lemma LastStays<K>(s: seq<K>, k: K, n: nat)
    requires n > 0
    ensures LastN(s + [k], n) != [] && LastN(s + [k], n)[|LastN(s + [k], n)| - 1] == k
    ensures k in LastN(s + [k], n)
  {
  }

  /** The last `capacity` distinct keys of a log. */
  function Recent<K(==)>(log: seq<K>, capacity: nat): seq<K> {
    LastN(ByLastUse(log), capacity)
  }

  lemma {:induction false} ListsMembers<K>(order: seq<K>, keys: set<K>, k: K)
    requires Lists(order, keys)
    ensures k in order <==> k in keys
    ensures |order| == |keys|
  {
    if order != [] {
      ListsMembers(order[1..], keys - {order[0]}, k);
    }
  }

  lemma {:induction false} ListsAppend<K>(order: seq<K>, keys: set<K>, k: K)
    requires Lists(order, keys) && k !in keys
    ensures Lists(order + [k], keys + {k})
  {
    if order == [] {
      assert (order + [k])[1..] == [] && keys + {k} - {k} == {};
    } else {
      var x := order[0];
      ListsAppend(order[1..], keys - {x}, k);
      assert (order + [k])[1..] == order[1..] + [k];
      assert keys + {k} - {x} == keys - {x} + {k};
    }
  }

  lemma {:induction false} WithoutLists<K>(order: seq<K>, keys: set<K>, k: K)
    requires Lists(order, keys)
    ensures Lists(Without(order, k), keys - {k})
    ensures |Without(order, k)| == if k in keys then |order| - 1 else |order|
    ensures k !in keys ==> Without(order, k) == order
  {
    if order != [] {
      var x := order[0];
      WithoutLists(order[1..], keys - {x}, k);
      if x != k {
        var rest := Without(order[1..], k);
        assert ([x] + rest)[1..] == rest;
        assert keys - {k} - {x} == keys - {x} - {k};
      }
    }
  }

  /** The recency order lists the keys of the log, each once. */
  lemma {:induction false} ByLastUseLists<K>(log: seq<K>) returns (keys: set<K>)
    ensures Lists(ByLastUse(log), keys)
  {
    if log == [] {
      keys := {};
    } else {
      var k := log[|log| - 1];
      var earlier := ByLastUseLists(log[..|log| - 1]);
      WithoutLists(ByLastUse(log[..|log| - 1]), earlier, k);
      ListsAppend(Without(ByLastUse(log[..|log| - 1]), k), earlier - {k}, k);
      keys := earlier - {k} + {k};
    }
  }

  /** The position of the last use of `k`, or -1. */
  function LastUse<K(==)>(log: seq<K>, k: K): (i: int)
    ensures -1 <= i < |log|
    ensures i >= 0 ==> log[i] == k
    ensures forall j :: i < j < |log| ==> log[j] != k
  {
    if log == [] then -1
    else if log[|log| - 1] == k then |log| - 1
    else LastUse(log[..|log| - 1], k)
  }

  ghost predicate OrderedByUse<K>(s: seq<K>, log: seq<K>) {
    forall i, j :: 0 <= i < j < |s| ==> LastUse(log, s[i]) < LastUse(log, s[j])
  }

  lemma {:induction false} WithoutMembers<K(!new)>(s: seq<K>, k: K)
    ensures forall x :: x in Without(s, k) <==> x in s && x != k
  {
    if s != [] {
      WithoutMembers(s[1..], k);
    }
  }

  lemma {:induction false} WithoutOrdered<K(!new)>(s: seq<K>, log: seq<K>, k: K)
    requires OrderedByUse(s, log)
    ensures OrderedByUse(Without(s, k), log + [k])
  {
    if s != [] {
      WithoutOrdered(s[1..], log, k);
      WithoutMembers(s[1..], k);
      var rest := Without(s[1..], k);
      assert (log + [k])[..|log|] == log;
      forall j | 0 <= j < |rest| && s[0] != k ensures LastUse(log + [k], s[0]) < LastUse(log + [k], rest[j]) {
        assert rest[j] in rest;
        var i :| 0 <= i < |s[1..]| && s[1..][i] == rest[j];
        assert s[i + 1] == rest[j];
      }
    }
  }

  /** What `ByLastUse` means: exactly the keys of the log, in the order of their last uses. */
  lemma {:induction false} ByLastUseOrdered<K(!new)>(log: seq<K>)
    ensures forall k :: k in ByLastUse(log) <==> k in log
    ensures OrderedByUse(ByLastUse(log), log)
  {
    if log != [] {
      var init, k := log[..|log| - 1], log[|log| - 1];
      assert log == init + [k];
      ByLastUseOrdered(init);
      WithoutMembers(ByLastUse(init), k);
      WithoutOrdered(ByLastUse(init), init, k);
      var rest := Without(ByLastUse(init), k);
      forall i | 0 <= i < |rest| ensures LastUse(log, rest[i]) < LastUse(log, k) {
        assert rest[i] in rest;
      }
    }
  }

  /** A suffix of a listing is a listing, and shares nothing with what precedes it. */
  lemma {:induction false} ListsSuffix<K>(s: seq<K>, t: seq<K>, keys: set<K>) returns (rest: set<K>)
    requires Lists(s + t, keys)
    ensures Lists(t, rest) && rest <= keys
    ensures forall k :: k in rest ==> k !in s
  {
    if s == [] {
      assert s + t == t;
      rest := keys;
    } else {
      assert (s + t)[1..] == s[1..] + t;
      rest := ListsSuffix(s[1..], t, keys - {s[0]});
    }
  }

  lemma {:induction false} WithoutAbsent<K(!new)>(s: seq<K>, k: K)
    requires k !in s
    ensures Without(s, k) == s
  {
    if s != [] {
      WithoutAbsent(s[1..], k);
    }
  }

  lemma {:induction false} WithoutAppend<K(!new)>(s: seq<K>, t: seq<K>, k: K)
    ensures Without(s + t, k) == Without(s, k) + Without(t, k)
  {
    if s == [] {
      assert s + t == t;
    } else {
      assert (s + t)[1..] == s[1..] + t;
      WithoutAppend(s[1..], t, k);
    }
  }

  /** Appending a use to the log moves its key to the end of the recency order. */
  lemma ByLastUseStep<K(!new)>(log: seq<K>, k: K)
    ensures ByLastUse(log + [k]) == Without(ByLastUse(log), k) + [k]
  {
    assert (log + [k])[..|log|] == log;
  }

  /** Splits the recency order into what the cache has forgotten and what it holds. */
  lemma SplitRecent<K(!new)>(log: seq<K>, capacity: nat) returns (forgotten: seq<K>, held: set<K>)
    ensures ByLastUse(log) == forgotten + Recent(log, capacity)
    ensures forgotten == [] || |Recent(log, capacity)| == capacity
    ensures Lists(Recent(log, capacity), held)
    ensures forall k :: k in held ==> k !in forgotten
  {
    var all := ByLastUse(log);
    var keys := ByLastUseLists(log);
    forgotten := all[..|all| - |Recent(log, capacity)|];
    assert all == forgotten + Recent(log, capacity);
    held := ListsSuffix(forgotten, Recent(log, capacity), keys);
  }

  /** Touching a key that is still cached only reorders the cache. */
  lemma TouchHit<K(!new)>(log: seq<K>, k: K, capacity: nat)
    requires k in Recent(log, capacity)
    ensures Recent(log + [k], capacity) == Without(Recent(log, capacity), k) + [k]
  {
    var order := Recent(log, capacity);
    var forgotten, held := SplitRecent(log, capacity);
    ListsMembers(order, held, k);
    WithoutLists(order, held, k);
    WithoutAbsent(forgotten, k);
    WithoutAppend(forgotten, order, k);
    ByLastUseStep(log, k);
    Associative(forgotten, Without(order, k), [k]);
    KeepNewest(forgotten, Without(order, k) + [k], capacity);
  }

  lemma KeepNewest<K(!new)>(s: seq<K>, t: seq<K>, capacity: nat)
    requires s == [] || |t| >= capacity
    ensures LastN((s + t), capacity) == LastN(t, capacity)
  {
    if s == [] {
      assert s + t == t;
    }
  }

  /** Inserting a key at the end and dropping the oldest ones over capacity. */
  lemma TouchMiss<K(!new)>(log: seq<K>, k: K, capacity: nat)
    requires k !in Recent(log, capacity)
    ensures Recent(log + [k], capacity) == LastN(Recent(log, capacity) + [k], capacity)
  {
    var order := Recent(log, capacity);
    var forgotten, _ := SplitRecent(log, capacity);
    WithoutAbsent(order, k);
    WithoutAppend(forgotten, order, k);
    ByLastUseStep(log, k);
    Associative(Without(forgotten, k), order, [k]);
    KeepNewest(Without(forgotten, k), order + [k], capacity);
  }

  // ----- the cache ----------------------------------------------------------

  datatype Text = Text(chars: string)
  datatype Vector = Vector(values: seq<real>)
  datatype Key = Digest(hex: string)

  /** An embedder that treats every text on its own, by the function `f`. */
  ghost predicate Pointwise(inner: seq<Text> -> seq<Vector>, f: Text -> Vector) {
    forall ts: seq<Text> :: |inner(ts)| == |ts| && forall i :: 0 <= i < |ts| ==> inner(ts)[i] == f(ts[i])
  }

  /** The texts of one call that the cache holds, or does not hold, when the call starts. */
  function Select(texts: seq<Text>, hash: Text -> Key, held: set<Key>, hits: bool): (r: seq<Text>)
    ensures |r| <= |texts|
  {
    if texts == [] then []
    else
      var last := texts[|texts| - 1];
      var rest := Select(texts[..|texts| - 1], hash, held, hits);
      if (hash(last) in held) == hits then rest + [last] else rest
  }

  function Keys(texts: seq<Text>, hash: Text -> Key): (r: seq<Key>)
    ensures |r| == |texts| && forall i :: 0 <= i < |r| ==> r[i] == hash(texts[i])
  {
    seq(|texts|, i requires 0 <= i < |texts| => hash(texts[i]))
  }

  class CachingEmbedder {
    const inner: seq<Text> -> seq<Vector>
    const hash: Text -> Key
    const capacity: nat
    /** The ordered dictionary: its keys from oldest to newest, and their values. */
    var order: seq<Key>
    var vectors: map<Key, Vector>
    /** Every key touched so far, in the order of the touches. */
    ghost var log: seq<Key>

    /** The key order is exactly the last `capacity` distinct keys ever touched. */
    ghost predicate Valid()
      reads this
    {
      order == Recent(log, capacity) && Lists(order, vectors.Keys)
    }

    /** Every stored vector is what `f` gives for the texts of its key. */
    ghost predicate Faithful(f: Text -> Vector)
      reads `vectors
    {
      forall t :: hash(t) in vectors ==> vectors[hash(t)] == f(t)
    }

    constructor (inner: seq<Text> -> seq<Vector>, hash: Text -> Key, capacity: int)
      ensures Valid() && this.inner == inner && this.hash == hash
      ensures this.capacity == if capacity > 0 then capacity else 0
      ensures log == [] && forall f :: Faithful(f)
    {
      this.inner := inner;
      this.hash := hash;
      this.capacity := if capacity > 0 then capacity else 0;
      order := [];
      vectors := map[];
      log := [];
    }

    /** Moves a cached key to the newest position. */
    method MoveToEnd(k: Key)
      requires Valid() && k in vectors
      modifies this`order, this`log
      ensures Valid() && log == old(log) + [k] && order == Without(old(order), k) + [k]
    {
      Replaced(k);
      TouchHit(log, k, capacity);
      order := Without(order, k) + [k];
      log := log + [k];
    }

    /** Stores a vector under a key, makes it the newest, and evicts from the oldest end while
        the cache is over capacity. */
    method Insert(k: Key, vector: Vector, ghost text: Text, ghost f: Text -> Vector)
      requires Valid() && capacity > 0
      modifies this`order, this`vectors, this`log
      ensures Valid() && log == old(log) + [k]
      ensures k in vectors && vectors[k] == vector
      ensures SubMap(vectors, old(vectors)[k := vector])
      ensures Injective(hash) && old(Faithful(f)) && hash(text) == k && f(text) == vector ==> Faithful(f)
    {
      hide ByLastUse, Without, Recent, LastN;
      Placed(k);
      LastStays(Without(order, k), k, capacity);
      order := Without(order, k) + [k];
      vectors := vectors[k := vector];
      assert vectors.Keys == old(vectors).Keys + {k};
      EvictOldest();
      log := log + [k];
      ListsMembers(order, vectors.Keys, k);
    }

    /** The eviction loop. */
    method EvictOldest()
      requires Lists(order, vectors.Keys)
      modifies this`order, this`vectors
      ensures Lists(order, vectors.Keys) && order == LastN(old(order), capacity) && SubMap(vectors, old(vectors))
    {
      EvictKeepsNewest(order, vectors, capacity);
      ghost var settled := Evict(order, vectors, capacity);
      while |vectors| > capacity
        invariant Lists(order, vectors.Keys)
        invariant Evict(order, vectors, capacity) == settled
        decreases |order|
      {
        ghost var remaining := vectors.Keys - {order[0]};
        vectors := vectors - {order[0]};
        assert vectors.Keys == remaining;
        order := order[1..];
      }
    }

    lemma Replaced(k: Key)
      requires Valid()
      ensures k in order <==> k in vectors
      ensures Lists(Without(order, k) + [k], vectors.Keys + {k})
      ensures k in vectors ==> vectors.Keys + {k} == vectors.Keys && |Without(order, k)| == |order| - 1
      ensures k !in vectors ==> Without(order, k) == order
    {
      ListsMembers(order, vectors.Keys, k);
      WithoutLists(order, vectors.Keys, k);
      ListsAppend(Without(order, k), vectors.Keys - {k}, k);
      assert vectors.Keys - {k} + {k} == vectors.Keys + {k};
    }

    /** The recency order once `k` has been placed at its end, before any eviction. */
    lemma Placed(k: Key)
      requires Valid()
      ensures Recent(log + [k], capacity) == LastN(Without(order, k) + [k], capacity)
      ensures Lists(Without(order, k) + [k], vectors.Keys + {k})
    {
      Replaced(k);
      if k in vectors {
        TouchHit(log, k, capacity);
      } else {
        TouchMiss(log, k, capacity);
      }
    }

    /** The first pass over the texts: hits are touched and copied, misses are listed. */
    method ScanTexts(texts: seq<Text>) returns (slots: seq<Slot>, missingTexts: seq<Text>, missingSlots: seq<Miss>)
      requires Valid() && capacity > 0
      modifies this`order, this`log
      ensures Valid()
      ensures log == old(log) + Keys(Select(texts, hash, vectors.Keys, true), hash)
      ensures missingTexts == Select(texts, hash, vectors.Keys, false)
      ensures |slots| == |texts| && Pending(texts, hash, slots, missingTexts, missingSlots, |texts|)
      ensures SlotsHeld(texts, hash, slots, vectors)
    {
      slots := seq(|texts|, _ => Empty);
      missingTexts, missingSlots := [], [];
      ghost var touched := [];
      assert old(log) + [] == old(log);
      for index := 0 to |texts|
        invariant Valid() && log == old(log) + touched
        invariant Scanned(texts, hash, vectors, index, touched, slots, missingTexts, missingSlots)
      {
        var text := texts[index];
        var key := hash(text);
        if key in vectors {
          ScannedHit(texts, hash, vectors, index, touched, slots, missingTexts, missingSlots);
          MoveToEnd(key);
          Associative(old(log), touched, [key]);
          touched := touched + [key];
          slots := slots[index := Filled(vectors[key])];
        } else {
          ScannedMiss(texts, hash, vectors, index, touched, slots, missingTexts, missingSlots);
          missingTexts := missingTexts + [text];
          missingSlots := missingSlots + [Miss(index, key)];
        }
      }
      assert texts[..|texts|] == texts;
    }

    /** The second pass: answers are paired with the listed misses, stored and inserted. */
    method FillMisses(texts: seq<Text>, given: seq<Slot>, missingTexts: seq<Text>, missingSlots: seq<Miss>,
                      answers: seq<Vector>, ghost f: Text -> Vector)
      returns (slots: seq<Slot>)
      requires Valid() && capacity > 0
      requires |given| == |texts| && Pending(texts, hash, given, missingTexts, missingSlots, |texts|)
      modifies this`order, this`vectors, this`log
      ensures Valid()
      ensures log == old(log) + Keys(missingTexts, hash)[..Min(|missingTexts|, |answers|)]
      ensures |slots| == |texts|
      ensures Progress(given, slots, missingSlots, Min(|missingTexts|, |answers|))
      ensures && Injective(hash) && old(Faithful(f)) && SlotsCorrect(texts, given, f)
              && AnswersCorrect(missingTexts, answers, f)
              ==> Faithful(f) && SlotsCorrect(texts, slots, f)
    {
      slots := given;
      var n := Min(|missingSlots|, |answers|);
      ghost var sound :=
        Injective(hash) && Faithful(f) && SlotsCorrect(texts, given, f) && AnswersCorrect(missingTexts, answers, f);
      for m := 0 to n
        invariant Valid()
        invariant log == old(log) + Keys(missingTexts, hash)[..m]
        invariant |slots| == |texts| && Progress(given, slots, missingSlots, m)
        invariant sound ==> Faithful(f) && SlotsCorrect(texts, slots, f)
      {
        var Miss(index, key) := missingSlots[m];
        KeysStep(missingTexts, hash, m);
        ProgressStep(given, slots, missingSlots, m, Filled(answers[m]));
        if sound {
          FillCorrect(texts, slots, index, answers[m], f);
        }
        slots := slots[index := Filled(answers[m])];
        Insert(key, answers[m], missingTexts[m], f);
        Associative(old(log), Keys(missingTexts, hash)[..m], [key]);
      }
    }

    /** One call. The hits are touched in scan order, then the misses are inserted in order; the
        inner embedder is asked once, for exactly the texts not held when the call began. */
    method Embed(texts: seq<Text>, ghost f: Text -> Vector) returns (result: seq<Vector>)
      requires Valid()
      modifies this`order, this`vectors, this`log
      ensures Valid() && |vectors| <= capacity
      ensures capacity == 0 ==> log == old(log) && result == inner(texts)
      ensures capacity > 0 ==>
                var hits := Select(texts, hash, old(vectors).Keys, true);
                var misses := Select(texts, hash, old(vectors).Keys, false);
                log == old(log) + Keys(hits, hash) + Keys(misses, hash)[..Answered(misses)]
      ensures Pointwise(inner, f) && Injective(hash) && old(Faithful(f)) ==>
                Faithful(f) && result == Map(texts, f)
    {
      if capacity == 0 {
        Fits();
        result := inner(texts);
        assert Pointwise(inner, f) ==> result == Map(texts, f);
        return;
      }
      ghost var sound := Pointwise(inner, f) && Injective(hash) && Faithful(f);
      var slots, missingTexts, missingSlots := ScanTexts(texts);
      ghost var touched := Keys(Select(texts, hash, vectors.Keys, true), hash);
      assert old(log) + touched + [] == old(log) + touched;
      ghost var given := slots;
      if sound {
        HeldCorrect(texts, hash, slots, vectors, f);
      }
      if |missingTexts| > 0 {
        var answers := inner(missingTexts);
        assert sound ==> AnswersCorrect(missingTexts, answers, f) && |answers| == |missingTexts|;
        slots := FillMisses(texts, slots, missingTexts, missingSlots, answers, f);
      }
      result := Present(slots);
      Fits();
      if sound {
        AllAnswered(texts, hash, given, slots, missingTexts, missingSlots);
        CorrectIsMap(texts, slots, f);
      }
    }

    lemma Fits()
      requires Valid()
      ensures |vectors| <= capacity
    {
      ListsSize(order, vectors.Keys);
    }

    /** How many of the missing texts the inner embedder answers. */
    ghost function Answered(misses: seq<Text>): (n: nat)
      ensures n <= |misses|
    {
      if misses == [] then 0 else Min(|misses|, |inner(misses)|)
    }
  }

  ghost predicate SlotsCorrect(texts: seq<Text>, slots: seq<Slot>, f: Text -> Vector)
    requires |slots| == |texts|
  {
    forall i :: 0 <= i < |texts| && slots[i].Filled? ==> slots[i].vector == f(texts[i])
  }

  ghost predicate SlotsHeld(texts: seq<Text>, hash: Text -> Key, slots: seq<Slot>, vectors: map<Key, Vector>)
    requires |slots| == |texts|
  {
    forall i :: 0 <= i < |texts| && slots[i].Filled? ==>
      hash(texts[i]) in vectors && slots[i].vector == vectors[hash(texts[i])]
  }

  lemma SelectStep(texts: seq<Text>, index: nat, hash: Text -> Key, held: set<Key>)
    requires index < |texts|
    ensures
      var text, before, after := texts[index], texts[..index], texts[..index + 1];
      if hash(text) in held then
        && Keys(Select(after, hash, held, true), hash) == Keys(Select(before, hash, held, true), hash) + [hash(text)]
        && Select(after, hash, held, false) == Select(before, hash, held, false)
      else
        && Select(after, hash, held, true) == Select(before, hash, held, true)
        && Select(after, hash, held, false) == Select(before, hash, held, false) + [text]
  {
    assert texts[..index + 1][..index] == texts[..index];
  }

  lemma KeysStep(texts: seq<Text>, hash: Text -> Key, m: nat)
    requires m < |texts|
    ensures Keys(texts, hash)[..m + 1] == Keys(texts, hash)[..m] + [hash(texts[m])]
  {
  }

  ghost predicate AllFilled(slots: seq<Slot>) {
    forall i :: 0 <= i < |slots| ==> slots[i].Filled?
  }

  /** Once every pending miss is answered no slot is empty. */
  lemma AllAnswered(texts: seq<Text>, hash: Text -> Key, given: seq<Slot>, slots: seq<Slot>, missing: seq<Text>, pending: seq<Miss>)
    requires |given| == |texts| && Pending(texts, hash, given, missing, pending, |texts|)
    requires Progress(given, slots, pending, |pending|)
    ensures AllFilled(slots)
  {
    forall i | 0 <= i < |slots| ensures slots[i].Filled? {
      if given[i].Empty? {
        var m :| 0 <= m < |pending| && pending[m].index == i;
      }
    }
  }

  ghost predicate AnswersCorrect(missing: seq<Text>, answers: seq<Vector>, f: Text -> Vector) {
    forall m :: 0 <= m < |answers| && m < |missing| ==> answers[m] == f(missing[m])
  }

  lemma HeldCorrect(texts: seq<Text>, hash: Text -> Key, slots: seq<Slot>, vectors: map<Key, Vector>, f: Text -> Vector)
    requires |slots| == |texts| && SlotsHeld(texts, hash, slots, vectors)
    requires forall t :: hash(t) in vectors ==> vectors[hash(t)] == f(t)
    ensures SlotsCorrect(texts, slots, f)
  {
  }

  lemma CorrectIsMap(texts: seq<Text>, slots: seq<Slot>, f: Text -> Vector)
    requires |slots| == |texts| && AllFilled(slots) && SlotsCorrect(texts, slots, f)
    ensures Present(slots) == Map(texts, f)
  {
    AllPresent(slots, Map(texts, f));
  }

  lemma FillCorrect(texts: seq<Text>, slots: seq<Slot>, index: nat, vector: Vector, f: Text -> Vector)
    requires |slots| == |texts| && SlotsCorrect(texts, slots, f)
    requires index < |texts| && vector == f(texts[index])
    ensures SlotsCorrect(texts, slots[index := Filled(vector)], f)
  {
  }

  /** What the first pass has done once `index` texts were looked up. */
  ghost predicate Scanned(texts: seq<Text>, hash: Text -> Key, vectors: map<Key, Vector>, index: nat, touched: seq<Key>,
                          slots: seq<Slot>, missing: seq<Text>, pending: seq<Miss>)
    requires index <= |texts|
  {
    && touched == Keys(Select(texts[..index], hash, vectors.Keys, true), hash)
    && missing == Select(texts[..index], hash, vectors.Keys, false)
    && |slots| == |texts| && Pending(texts, hash, slots, missing, pending, index)
    && SlotsHeld(texts, hash, slots, vectors)
  }

  /** The slots already given, and those of the first `m` misses, are filled. */
  ghost predicate Progress(given: seq<Slot>, slots: seq<Slot>, pending: seq<Miss>, m: nat) {
    && |slots| == |given| && m <= |pending|
    && (forall i :: 0 <= i < |given| && given[i].Filled? ==> slots[i].Filled?)
    && (forall j :: 0 <= j < m ==> pending[j].index < |slots| && slots[pending[j].index].Filled?)
  }

  lemma ProgressStep(given: seq<Slot>, slots: seq<Slot>, pending: seq<Miss>, m: nat, filled: Slot)
    requires Progress(given, slots, pending, m) && m < |pending| && pending[m].index < |slots| && filled.Filled?
    ensures Progress(given, slots[pending[m].index := filled], pending, m + 1)
  {
  }

  /** Of the first `index` slots, those still empty are the listed misses, in order. */
  ghost predicate Pending(texts: seq<Text>, hash: Text -> Key, slots: seq<Slot>, missing: seq<Text>,
                          pending: seq<Miss>, index: nat)
    requires |slots| == |texts| && index <= |texts|
  {
    && |pending| == |missing|
    && (forall m :: 0 <= m < |pending| ==>
          pending[m].index < index && missing[m] == texts[pending[m].index] && pending[m].key == hash(missing[m]))
    && (forall i :: 0 <= i < index && slots[i].Empty? ==> exists m :: 0 <= m < |pending| && pending[m].index == i)
  }

  lemma PendingMiss(texts: seq<Text>, hash: Text -> Key, slots: seq<Slot>, missing: seq<Text>,
                    pending: seq<Miss>, index: nat)
    requires |slots| == |texts| && index < |texts| && Pending(texts, hash, slots, missing, pending, index)
    ensures Pending(texts, hash, slots, missing + [texts[index]], pending + [Miss(index, hash(texts[index]))], index + 1)
  {
    var more := pending + [Miss(index, hash(texts[index]))];
    forall i | 0 <= i < index + 1 && slots[i].Empty? ensures exists m :: 0 <= m < |more| && more[m].index == i {
      if i == index {
        assert more[|pending|].index == i;
      } else {
        var m :| 0 <= m < |pending| && pending[m].index == i;
        assert more[m].index == i;
      }
    }
  }

  lemma ScannedHit(texts: seq<Text>, hash: Text -> Key, vectors: map<Key, Vector>, index: nat, touched: seq<Key>,
                   slots: seq<Slot>, missing: seq<Text>, pending: seq<Miss>)
    requires index < |texts| && hash(texts[index]) in vectors
    requires Scanned(texts, hash, vectors, index, touched, slots, missing, pending)
    ensures Scanned(texts, hash, vectors, index + 1, touched + [hash(texts[index])],
                    slots[index := Filled(vectors[hash(texts[index])])], missing, pending)
  {
    SelectStep(texts, index, hash, vectors.Keys);
  }

  lemma ScannedMiss(texts: seq<Text>, hash: Text -> Key, vectors: map<Key, Vector>, index: nat, touched: seq<Key>,
                    slots: seq<Slot>, missing: seq<Text>, pending: seq<Miss>)
    requires index < |texts| && hash(texts[index]) !in vectors
    requires Scanned(texts, hash, vectors, index, touched, slots, missing, pending)
    ensures Scanned(texts, hash, vectors, index + 1, touched, slots,
                    missing + [texts[index]], pending + [Miss(index, hash(texts[index]))])
  {
    SelectStep(texts, index, hash, vectors.Keys);
    PendingMiss(texts, hash, slots, missing, pending, index);
  }

  datatype Miss = Miss(index: nat, key: Key)

  datatype Slot = Empty | Filled(vector: Vector)

  function Present(slots: seq<Slot>): seq<Vector> {
    if slots == [] then []
    else if slots[0].Empty? then Present(slots[1..])
    else [slots[0].vector] + Present(slots[1..])
  }

  lemma {:induction false} AllPresent(slots: seq<Slot>, expected: seq<Vector>)
    requires |slots| == |expected| && forall i :: 0 <= i < |slots| ==> slots[i] == Filled(expected[i])
    ensures Present(slots) == expected
  {
    if slots != [] {
      AllPresent(slots[1..], expected[1..]);
    }
  }

  ghost predicate Injective(hash: Text -> Key) {
    forall s, t :: hash(s) == hash(t) ==> s == t
  }

  ghost predicate SubMap<K(!new), V>(m: map<K, V>, n: map<K, V>) {
    forall k :: k in m ==> k in n && m[k] == n[k]
  }

  datatype Store = Store(order: seq<Key>, vectors: map<Key, Vector>)

  /** Dropping the oldest key until the store fits. */
  function Evict(order: seq<Key>, vectors: map<Key, Vector>, capacity: nat): Store {
    if |vectors| <= capacity || order == [] then Store(order, vectors)
    else Evict(order[1..], vectors - {order[0]}, capacity)
  }

  lemma {:induction false} EvictKeepsNewest(order: seq<Key>, vectors: map<Key, Vector>, capacity: nat)
    requires Lists(order, vectors.Keys)
    ensures Evict(order, vectors, capacity).order == LastN(order, capacity)
    ensures Lists(Evict(order, vectors, capacity).order, Evict(order, vectors, capacity).vectors.Keys)
    ensures SubMap(Evict(order, vectors, capacity).vectors, vectors)
  {
    ListsSize(order, vectors.Keys);
    if |vectors| > capacity {
      var rest := vectors - {order[0]};
      assert rest.Keys == vectors.Keys - {order[0]};
      EvictKeepsNewest(order[1..], rest, capacity);
      ListsSize(order[1..], rest.Keys);
    }
  }

  lemma {:induction false} ListsSize<K>(order: seq<K>, keys: set<K>)
    requires Lists(order, keys)
    ensures |order| == |keys|
  {
    if order != [] {
      ListsSize(order[1..], keys - {order[0]});
    }
  }
}
