/** Merging one catalog entity into another: a transaction of updates over aliases, facts and graph
    edges, each guarded by a uniqueness constraint, ending in a cleanup of the edge table. Facts are
    updated only as far as row-level security shows them to the transaction. */
module GraphMerge {

  import opened Basics

  type Id = nat
  type RowId = nat

  datatype EdgeKey = EdgeKey(src: Id, dst: Id, rel: string)

  /** The columns of the natural key of a fact; `rest` stands for those a merge does not touch. */
  datatype FactKey = FactKey(document: Id, subject: Id, parameter: Id, rest: string)

  datatype AliasKey = AliasKey(entity: Id, alias: string, lang: string)

  datatype Side = Src | Dst

  // ----- the edge rewrite ---------------------------------------------------

  /** What a uniqueness constraint checks. */
  predicate Unique<K(==)>(rows: map<RowId, K>) {
    forall i, j :: i in rows && j in rows && rows[i] == rows[j] ==> i == j
  }

  /** Two rows with one key break it, two with different keys do not. */
  lemma UniqueOfTwo<K>(i: RowId, j: RowId, k: K, l: K)
    requires i != j
    ensures Unique(map[i := k, j := l]) <==> k != l
  {
    var rows := map[i := k, j := l];
    assert rows[i] == k && rows[j] == l;
  }

  function End(k: EdgeKey, side: Side): Id {
    if side.Src? then k.src else k.dst
  }

  function WithEnd(k: EdgeKey, side: Side, x: Id): EdgeKey {
    if side.Src? then k.(src := x) else k.(dst := x)
  }

  /** One update statement: rows whose `side` is `e` get `t` there, unless another row already has
      the key they would get. The condition is evaluated on the table as it was before. */
  function Pass(edges: map<RowId, EdgeKey>, side: Side, e: Id, t: Id): (r: map<RowId, EdgeKey>)
    ensures r.Keys == edges.Keys
  {
    map i | i in edges ::
      if End(edges[i], side) == e && !Taken(edges, WithEnd(edges[i], side, t), i)
      then WithEnd(edges[i], side, t) else edges[i]
  }

  predicate Taken(edges: map<RowId, EdgeKey>, key: EdgeKey, except: RowId) {
    exists x :: x in edges && edges[x] == key && x != except
  }

  predicate Removed(k: EdgeKey, e: Id, t: Id) {
    k.src == e || k.dst == e || (k.src == t && k.dst == t)
  }

  function Cleanup(edges: map<RowId, EdgeKey>, e: Id, t: Id): map<RowId, EdgeKey> {
    map i | i in edges && !Removed(edges[i], e, t) :: edges[i]
  }

  function Rewrite(edges: map<RowId, EdgeKey>, e: Id, t: Id): map<RowId, EdgeKey> {
    Cleanup(Pass(Pass(edges, Src, e, t), Dst, e, t), e, t)
  }

  // ----- what the rewrite should be -----------------------------------------

  function Subst(x: Id, e: Id, t: Id): Id {
    if x == e then t else x
  }

  function SubstKey(k: EdgeKey, e: Id, t: Id): EdgeKey {
    EdgeKey(Subst(k.src, e, t), Subst(k.dst, e, t), k.rel)
  }

  /** The substituted keys, without the loops that the merge creates or finds on the target. */
  function MergedKeys(keys: set<EdgeKey>, e: Id, t: Id): set<EdgeKey> {
    set k | k in keys && !(Subst(k.src, e, t) == t && Subst(k.dst, e, t) == t) :: SubstKey(k, e, t)
  }

  /** Which row stands for a merged key: the one that had the key already, or else the one that
      was rewritten to it. */
  ghost predicate Survives(edges: map<RowId, EdgeKey>, i: RowId, e: Id, t: Id)
    requires i in edges
  {
    var k := SubstKey(edges[i], e, t);
    !(k.src == t && k.dst == t) && (k == edges[i] || k !in edges.Values)
  }

  lemma PassKeepsUnique(edges: map<RowId, EdgeKey>, side: Side, e: Id, t: Id)
    requires Unique(edges)
    ensures Unique(Pass(edges, side, e, t))
  {
    var r := Pass(edges, side, e, t);
    forall i, j | i in r && j in r && i != j ensures r[i] != r[j] {
      assert edges[i] != r[i] ==> !Taken(edges, r[i], i);
      assert edges[j] != r[j] ==> !Taken(edges, r[j], j);
      assert Taken(edges, edges[j], i) && Taken(edges, edges[i], j);
    }
  }

  /** Row by row, the three statements amount to the substitution: exactly the surviving rows are
      left, each under its substituted key. */
  lemma RewriteRow(edges: map<RowId, EdgeKey>, e: Id, t: Id, i: RowId)
    requires Unique(edges) && e != t && i in edges
    ensures i in Rewrite(edges, e, t) <==> Survives(edges, i, e, t)
    ensures i in Rewrite(edges, e, t) ==> Rewrite(edges, e, t)[i] == SubstKey(edges[i], e, t)
  {
    var k := edges[i];
    var first := Pass(edges, Src, e, t);
    var second := Pass(first, Dst, e, t);
    if k.src == e && k.dst != e {
      if Taken(edges, k.(src := t), i) {
        assert first[i] == k && k.(src := t) in edges.Values;
      } else {
        NotTaken(edges, k.(src := t), i);
      }
    } else if k.src != e && k.dst == e {
      assert first[i] == k;
      if k.src == t {
        assert Removed(second[i], e, t);
      } else {
        DstTarget(edges, e, t, i);
        if !Taken(edges, k.(dst := t), i) {
          NotTaken(edges, k.(dst := t), i);
        }
      }
    } else if k.src == e && k.dst == e {
      assert first[i] == k || first[i] == k.(src := t);
      assert Removed(second[i], e, t);
    }
  }

  lemma NotTaken(edges: map<RowId, EdgeKey>, key: EdgeKey, i: RowId)
    requires i in edges && edges[i] != key && !Taken(edges, key, i)
    ensures key !in edges.Values
  {
    forall x | x in edges ensures edges[x] != key {
      assert x != i && edges[x] == key ==> Taken(edges, key, i);
    }
  }

  /** A row from `a` to `e` finds its target key taken after the first pass exactly when it was
      taken before, since the first pass only rewrites rows from `e`. */
  lemma DstTarget(edges: map<RowId, EdgeKey>, e: Id, t: Id, i: RowId)
    requires e != t && i in edges && edges[i].src != e && edges[i].dst == e
    requires edges[i].src != t
    ensures Taken(Pass(edges, Src, e, t), edges[i].(dst := t), i) <==> Taken(edges, edges[i].(dst := t), i)
  {
    var first, key := Pass(edges, Src, e, t), edges[i].(dst := t);
    if Taken(first, key, i) {
      var x :| x in first && first[x] == key && x != i;
      assert edges[x] == key;
    }
    if Taken(edges, key, i) {
      var x :| x in edges && edges[x] == key && x != i;
      assert first[x] == key;
    }
  }

  /** The rewrite yields exactly the substituted keys minus the loops on the target, keeps the key
      unique, and leaves no edge naming the merged entity. */
  lemma RewriteIsSubstitution(edges: map<RowId, EdgeKey>, e: Id, t: Id)
    requires Unique(edges) && e != t
    ensures Rewrite(edges, e, t).Values == MergedKeys(edges.Values, e, t)
    ensures Unique(Rewrite(edges, e, t))
    ensures forall k :: k in Rewrite(edges, e, t).Values ==> k.src != e && k.dst != e
  {
    var r := Rewrite(edges, e, t);
    PassKeepsUnique(edges, Src, e, t);
    PassKeepsUnique(Pass(edges, Src, e, t), Dst, e, t);
    forall k | k in r.Values ensures k in MergedKeys(edges.Values, e, t) {
      var i :| i in r && r[i] == k;
      RewriteRow(edges, e, t, i);
      assert edges[i] in edges.Values;
    }
    forall k | k in MergedKeys(edges.Values, e, t) ensures k in r.Values {
      var o :| o in edges.Values && SubstKey(o, e, t) == k && !(k.src == t && k.dst == t);
      var i :| i in edges && edges[i] == o;
      RewriteRow(edges, e, t, i);
      if k in edges.Values {
        var j :| j in edges && edges[j] == k;
        RewriteRow(edges, e, t, j);
        assert r[j] == k;
      } else {
        assert r[i] == k;
      }
    }
  }

  /** Merging an entity into itself is not a no-op: the cleanup deletes every edge naming it. */
  lemma SelfMergeDeletes(edges: map<RowId, EdgeKey>, e: Id)
    requires Unique(edges)
    ensures Rewrite(edges, e, e).Values == set k | k in edges.Values && k.src != e && k.dst != e
  {
    var first := Pass(edges, Src, e, e);
    assert first == edges;
    assert Pass(first, Dst, e, e) == edges;
    var r := Rewrite(edges, e, e);
    forall k | k in edges.Values && k.src != e && k.dst != e ensures k in r.Values {
      var i :| i in edges && edges[i] == k;
      assert r[i] == k;
    }
  }

  /** So the rewrite is the substitution exactly when the two entities differ or the entity has no
      edge except loops. */
  lemma RewriteIsSubstitutionIff(edges: map<RowId, EdgeKey>, e: Id, t: Id)
    requires Unique(edges)
    ensures Rewrite(edges, e, t).Values == MergedKeys(edges.Values, e, t) <==>
              e != t || forall k :: k in edges.Values && (k.src == e || k.dst == e) ==> k.src == k.dst
  {
    if e != t {
      RewriteIsSubstitution(edges, e, t);
    } else {
      SelfMergeDeletes(edges, e);
      forall k | k in edges.Values && (k.src == e || k.dst == e) && k.src != k.dst
        ensures k in MergedKeys(edges.Values, e, t) && k !in Rewrite(edges, e, t).Values
      {
        assert SubstKey(k, e, t) == k;
      }
      if forall k :: k in edges.Values && (k.src == e || k.dst == e) ==> k.src == k.dst {
        forall k ensures k in Rewrite(edges, e, t).Values <==> k in MergedKeys(edges.Values, e, t) {
          if k in edges.Values {
            assert SubstKey(k, e, t) == k;
          }
        }
      }
    }
  }

  // ----- the transaction ----------------------------------------------------

  function SubstAliases(aliases: set<AliasKey>, e: Id, t: Id): set<AliasKey> {
    set a | a in aliases :: a.(entity := Subst(a.entity, e, t))
  }

  /** Both entities carry the same alias in the same language. */
  predicate AliasClash(aliases: set<AliasKey>, e: Id, t: Id) {
    e != t && exists a :: a in aliases && a.entity == e && a.(entity := t) in aliases
  }

  // ----- what becomes of each row -------------------------------------------

  /** Every alias of another entity is still there, those of `e` are there under `t`, and no other is. */
  ghost predicate AliasesMoved(before: set<AliasKey>, after: set<AliasKey>, e: Id, t: Id) {
    && (forall a :: a in before && a.entity != e ==> a in after)
    && (forall a :: a in before && a.entity == e ==> AliasKey(t, a.alias, a.lang) in after)
    && (forall a :: a in after && a.entity != t ==> a in before && a.entity != e)
    && (forall a :: a in after && a.entity == t ==> a in before || AliasKey(e, a.alias, a.lang) in before)
  }

  lemma SubstAliasesMoves(aliases: set<AliasKey>, e: Id, t: Id)
    ensures AliasesMoved(aliases, SubstAliases(aliases, e, t), e, t)
    ensures |SubstAliases(aliases, e, t)| == |aliases| <==> !AliasClash(aliases, e, t)
  {
    forall a | a in SubstAliases(aliases, e, t)
      ensures (a.entity != t ==> a in aliases && a.entity != e)
              && (a.entity == t ==> a in aliases || AliasKey(e, a.alias, a.lang) in aliases)
    {
      var o :| o in aliases && o.(entity := Subst(o.entity, e, t)) == a;
      if o.entity == e {
        assert o == AliasKey(e, a.alias, a.lang);
      }
    }
    if AliasClash(aliases, e, t) {
      var a :| a in aliases && a.entity == e && a.(entity := t) in aliases;
      AliasesNotMore(aliases - {a}, e, t);
      assert a.(entity := t) in aliases - {a};
      assert SubstAliases(aliases, e, t) == SubstAliases(aliases - {a}, e, t);
    } else {
      NoAliasLost(aliases, e, t);
    }
  }

  lemma {:induction false} AliasesNotMore(aliases: set<AliasKey>, e: Id, t: Id)
    ensures |SubstAliases(aliases, e, t)| <= |aliases|
    decreases aliases
  {
    if aliases != {} {
      var a :| a in aliases;
      AliasesNotMore(aliases - {a}, e, t);
      assert SubstAliases(aliases, e, t) == SubstAliases(aliases - {a}, e, t) + {a.(entity := Subst(a.entity, e, t))};
    }
  }

  lemma {:induction false} NoAliasLost(aliases: set<AliasKey>, e: Id, t: Id)
    requires !AliasClash(aliases, e, t)
    ensures |SubstAliases(aliases, e, t)| == |aliases|
    decreases aliases
  {
    if aliases != {} {
      var a :| a in aliases;
      var rest, moved := aliases - {a}, a.(entity := Subst(a.entity, e, t));
      assert forall x :: x in rest ==> x in aliases;
      NoAliasLost(rest, e, t);
      assert moved !in SubstAliases(rest, e, t) by {
        forall o | o in rest ensures o.(entity := Subst(o.entity, e, t)) != moved {
          assert o.(entity := t) == a || a.(entity := t) == o || o.(entity := Subst(o.entity, e, t)) != moved;
        }
      }
      assert SubstAliases(aliases, e, t) == SubstAliases(rest, e, t) + {moved};
    }
  }

  /** Facts keep their rows, documents and other columns; in sight each end that was `e` is `t`, and
      every other end stays; hidden facts stay as they are. */
  ghost predicate FactsMoved(before: map<RowId, FactKey>, after: map<RowId, FactKey>, seen: set<Id>, e: Id, t: Id) {
    && after.Keys == before.Keys
    && forall i :: i in before ==>
         && after[i].document == before[i].document && after[i].rest == before[i].rest
         && after[i].subject == (if before[i].document in seen && before[i].subject == e then t else before[i].subject)
         && after[i].parameter == (if before[i].document in seen && before[i].parameter == e then t else before[i].parameter)
  }

  lemma SubstFactsMoves(facts: map<RowId, FactKey>, seen: set<Id>, e: Id, t: Id)
    ensures FactsMoved(facts, SubstFacts(facts, seen, e, t), seen, e, t)
  {
  }

  /** `was` is `x`, or `x` is the target and `was` the merged entity. */
  predicate Becomes(was: Id, x: Id, e: Id, t: Id) {
    (was == x && x != e) || (was == e && x == t)
  }

  /** An edge is there afterwards exactly when it is no loop on the target and some edge becomes it. */
  ghost predicate EdgesMoved(before: map<RowId, EdgeKey>, after: map<RowId, EdgeKey>, e: Id, t: Id) {
    forall k: EdgeKey :: k in after.Values <==>
      !(k.src == t && k.dst == t) && exists o: EdgeKey :: o in before.Values && EdgeBecomes(o, k, e, t)
  }

  ghost predicate EdgeBecomes(o: EdgeKey, k: EdgeKey, e: Id, t: Id) {
    Becomes(o.src, k.src, e, t) && Becomes(o.dst, k.dst, e, t) && o.rel == k.rel
  }

  lemma RewriteMoves(edges: map<RowId, EdgeKey>, e: Id, t: Id)
    requires Unique(edges) && e != t
    ensures EdgesMoved(edges, Rewrite(edges, e, t), e, t)
  {
    RewriteIsSubstitution(edges, e, t);
    forall k: EdgeKey
      ensures k in MergedKeys(edges.Values, e, t) <==>
                !(k.src == t && k.dst == t) && exists o: EdgeKey :: o in edges.Values && EdgeBecomes(o, k, e, t)
    {
      MergedKeysBecome(edges.Values, e, t, k);
    }
  }

  lemma MergedKeysBecome(keys: set<EdgeKey>, e: Id, t: Id, k: EdgeKey)
    requires e != t
    ensures k in MergedKeys(keys, e, t) <==>
              !(k.src == t && k.dst == t) && exists o: EdgeKey :: o in keys && EdgeBecomes(o, k, e, t)
  {
    forall o: EdgeKey ensures EdgeBecomes(o, k, e, t) <==> SubstKey(o, e, t) == k {
    }
    if k in MergedKeys(keys, e, t) {
      var o :| o in keys && SubstKey(o, e, t) == k && !(k.src == t && k.dst == t);
      assert EdgeBecomes(o, k, e, t);
    }
  }

  // ----- which facts the transaction sees -----------------------------------

  datatype Access = Public | Internal | Confidential | Restricted

  /** The policy on documents, given the access setting of the transaction, if there is one. */
  predicate Sees(setting: Option<string>, access: Access) {
    var level := if setting.None? then "internal" else setting.value;
    if level == "restricted" then true
    else if level == "confidential" then access != Restricted
    else if level == "internal" then access == Public || access == Internal
    else access == Public
  }

  /** The documents in sight; a fact is in sight with its document. */
  function Seen(documents: map<Id, Access>, setting: Option<string>): set<Id> {
    set d | d in documents && Sees(setting, documents[d])
  }

  function SubjectPass(facts: map<RowId, FactKey>, seen: set<Id>, e: Id, t: Id): map<RowId, FactKey> {
    map i | i in facts ::
      if facts[i].document in seen then facts[i].(subject := Subst(facts[i].subject, e, t)) else facts[i]
  }

  function ParameterPass(facts: map<RowId, FactKey>, seen: set<Id>, e: Id, t: Id): map<RowId, FactKey> {
    map i | i in facts ::
      if facts[i].document in seen then facts[i].(parameter := Subst(facts[i].parameter, e, t)) else facts[i]
  }

  function SubstFact(f: FactKey, e: Id, t: Id): FactKey {
    f.(subject := Subst(f.subject, e, t), parameter := Subst(f.parameter, e, t))
  }

  function SubstFacts(facts: map<RowId, FactKey>, seen: set<Id>, e: Id, t: Id): map<RowId, FactKey> {
    map i | i in facts :: if facts[i].document in seen then SubstFact(facts[i], e, t) else facts[i]
  }

  /** Two facts in sight would get the same key. */
  predicate FactClash(facts: map<RowId, FactKey>, seen: set<Id>, e: Id, t: Id) {
    exists i, j :: i in facts && j in facts && i != j && facts[i].document in seen
                   && SubstFact(facts[i], e, t) == SubstFact(facts[j], e, t)
  }

  /** Two facts that collide after the first update still collide after the second. */
  lemma CollisionsPersist(facts: map<RowId, FactKey>, seen: set<Id>, e: Id, t: Id)
    ensures ParameterPass(SubjectPass(facts, seen, e, t), seen, e, t) == SubstFacts(facts, seen, e, t)
    ensures Unique(SubstFacts(facts, seen, e, t)) ==> Unique(SubjectPass(facts, seen, e, t))
  {
    var first, both := SubjectPass(facts, seen, e, t), SubstFacts(facts, seen, e, t);
    assert ParameterPass(first, seen, e, t) == both;
    if Unique(both) {
      forall i, j | i in first && j in first && first[i] == first[j] ensures i == j {
        assert both[i] == both[j];
      }
    }
  }

  /** The uniqueness constraint covers hidden facts too, but they never refuse a merge: the document
      is part of the key, so facts that collide are in sight together. */
  lemma UniqueIffNoClash(facts: map<RowId, FactKey>, seen: set<Id>, e: Id, t: Id)
    requires Unique(facts)
    ensures Unique(SubstFacts(facts, seen, e, t)) <==> !FactClash(facts, seen, e, t)
  {
    var both := SubstFacts(facts, seen, e, t);
    if i, j :| i in facts && j in facts && i != j && facts[i].document in seen
               && SubstFact(facts[i], e, t) == SubstFact(facts[j], e, t) {
      assert facts[i].document == facts[j].document && both[i] == both[j];
    }
    if i, j :| i in both && j in both && both[i] == both[j] && i != j {
      assert facts[i].document == facts[j].document;
      assert facts[i] != facts[j];
      assert SubstFact(facts[i], e, t) == SubstFact(facts[j], e, t);
    }
  }

  /** The columns that refer to entities and that a merge does not touch. */
  datatype Place =
    | ParameterDefinition(row: RowId) | FactProperty(row: RowId)
    | ClaimSubject(row: RowId) | ClaimObject(row: RowId)
    | ExpertPerson(row: RowId) | ExpertTopic(row: RowId)

  /** The entity is named by a table that a merge rewrites. */
  ghost predicate NamedInRewritten(aliases: set<AliasKey>, facts: map<RowId, FactKey>, edges: map<RowId, EdgeKey>, e: Id) {
    || (exists a :: a in aliases && a.entity == e)
    || (exists i :: i in facts && (facts[i].subject == e || facts[i].parameter == e))
    || (exists i :: i in edges && (edges[i].src == e || edges[i].dst == e))
  }

  /** The entity is named by a column that a merge does not touch, or another entity was merged into it. */
  ghost predicate NamedElsewhere(elsewhere: map<Place, Id>, mergedInto: map<Id, Id>, e: Id) {
    || (exists p :: p in elsewhere && elsewhere[p] == e)
    || (exists x :: x in mergedInto && x != e && mergedInto[x] == e)
  }

  /** A fact that the merge does not see names the entity. */
  ghost predicate NamedInHidden(facts: map<RowId, FactKey>, seen: set<Id>, e: Id) {
    exists i :: i in facts && facts[i].document !in seen && (facts[i].subject == e || facts[i].parameter == e)
  }

  /** In the tables that a merge rewrites only hidden facts keep naming the merged entity. */
  lemma RewrittenForget(aliases: set<AliasKey>, facts: map<RowId, FactKey>, edges: map<RowId, EdgeKey>, seen: set<Id>,
                        e: Id, t: Id)
    requires Unique(edges) && e != t
    ensures NamedInRewritten(SubstAliases(aliases, e, t), SubstFacts(facts, seen, e, t), Rewrite(edges, e, t), e) <==>
              NamedInHidden(facts, seen, e)
  {
    var r, after := Rewrite(edges, e, t), SubstFacts(facts, seen, e, t);
    if i :| i in facts && facts[i].document !in seen && (facts[i].subject == e || facts[i].parameter == e) {
      assert after[i] == facts[i];
    }
    RewriteIsSubstitution(edges, e, t);
    forall i | i in r ensures r[i].src != e && r[i].dst != e {
      assert r[i] in r.Values;
    }
  }

  /** After a merge of distinct entities the merged one is still named somewhere exactly when a
      hidden fact or one of the untouched columns named it, or an earlier merge had led to it. */
  lemma StillNamedIff(aliases: set<AliasKey>, facts: map<RowId, FactKey>, edges: map<RowId, EdgeKey>, seen: set<Id>,
                      elsewhere: map<Place, Id>, mergedInto: map<Id, Id>, e: Id, t: Id)
    requires Unique(edges) && e != t
    ensures
      (|| NamedInRewritten(SubstAliases(aliases, e, t), SubstFacts(facts, seen, e, t), Rewrite(edges, e, t), e)
       || NamedElsewhere(elsewhere, mergedInto[e := t], e))
      <==> NamedInHidden(facts, seen, e) || NamedElsewhere(elsewhere, mergedInto, e)
  {
    RewrittenForget(aliases, facts, edges, seen, e, t);
    var now := mergedInto[e := t];
    assert forall x :: x in mergedInto && x != e ==> x in now && now[x] == mergedInto[x];
    assert forall x :: x in now && x != e ==> x in mergedInto && now[x] == mergedInto[x];
  }

  /** A merge does not set an access level, so the setting is absent, or blank on a connection that
      had one before: every fact of a confidential or restricted document is passed over. */
  lemma ConfidentialFactsKeepName(documents: map<Id, Access>, setting: Option<string>, facts: map<RowId, FactKey>,
                                  i: RowId, e: Id, t: Id)
    requires setting.None? || setting.value == ""
    requires i in facts && facts[i].document in documents
    requires documents[facts[i].document] == Confidential || documents[facts[i].document] == Restricted
    ensures SubstFacts(facts, Seen(documents, setting), e, t)[i] == facts[i]
    ensures facts[i].subject == e || facts[i].parameter == e ==> NamedInHidden(facts, Seen(documents, setting), e)
  {
  }

  function LevelName(level: Access): string {
    match level
    case Public => "public"
    case Internal => "internal"
    case Confidential => "confidential"
    case Restricted => "restricted"
  }

  function Rank(level: Access): nat {
    match level
    case Public => 0
    case Internal => 1
    case Confidential => 2
    case Restricted => 3
  }

  /** A named level sees what is ranked up to it; without a setting it is as with the internal one; any
      other setting, the blank one among them, sees public documents only. */
  lemma SeesIff(setting: Option<string>, level: Access, access: Access)
    ensures Sees(Some(LevelName(level)), access) <==> Rank(access) <= Rank(level)
    ensures Sees(None, access) <==> Rank(access) <= Rank(Internal)
    ensures setting.Some? && (forall l :: setting.value != LevelName(l)) ==> (Sees(setting, access) <==> access == Public)
  {
    assert LevelName(Internal) == "internal" && LevelName(Confidential) == "confidential";
    assert LevelName(Restricted) == "restricted";
  }

  /** A merge sees all facts, whatever their documents, exactly when it runs as restricted. */
  lemma SeesAllIff(setting: Option<string>)
    ensures (forall access :: Sees(setting, access)) <==> setting == Some("restricted")
  {
    if setting != Some("restricted") {
      assert !Sees(setting, Restricted);
    }
  }

  /** Every reference to an entity or a document holds. */
  ghost predicate ReferencesHold(entities: set<Id>, mergedInto: map<Id, Id>, aliases: set<AliasKey>, facts: map<RowId, FactKey>,
                             edges: map<RowId, EdgeKey>, elsewhere: map<Place, Id>, documents: map<Id, Access>)
  {
    && (forall a :: a in aliases ==> a.entity in entities)
    && (forall i :: i in facts ==> facts[i].subject in entities && facts[i].parameter in entities)
    && (forall i :: i in facts ==> facts[i].document in documents)
    && (forall i :: i in edges ==> edges[i].src in entities && edges[i].dst in entities)
    && mergedInto.Keys + mergedInto.Values <= entities && elsewhere.Values <= entities
  }

  lemma MergeKeepsReferences(entities: set<Id>, mergedInto: map<Id, Id>, aliases: set<AliasKey>, facts: map<RowId, FactKey>,
                        edges: map<RowId, EdgeKey>, elsewhere: map<Place, Id>, documents: map<Id, Access>, seen: set<Id>,
                        e: Id, t: Id)
    requires ReferencesHold(entities, mergedInto, aliases, facts, edges, elsewhere, documents)
    requires e in entities ==> t in entities
    ensures ReferencesHold(entities, if e in entities then mergedInto[e := t] else mergedInto,
                       SubstAliases(aliases, e, t), SubstFacts(facts, seen, e, t), Rewrite(edges, e, t), elsewhere, documents)
  {
    hide Rewrite, SubstFacts, SubstAliases;
    AliasesKeepEntities(aliases, entities, e, t);
    FactsKeepEntities(facts, seen, entities, documents, e, t);
    RewriteKeepsEntities(edges, entities, e, t);
  }

  class Catalog {
    var entities: set<Id>
    var mergedInto: map<Id, Id>
    var aliases: set<AliasKey>
    var facts: map<RowId, FactKey>
    var edges: map<RowId, EdgeKey>
    var elsewhere: map<Place, Id>
    var documents: map<Id, Access>

    ghost predicate Valid()
      reads this
    {
      && Unique(edges) && Unique(facts)
      && ReferencesHold(entities, mergedInto, aliases, facts, edges, elsewhere, documents)
    }

    constructor ()
      ensures Valid() && entities == {}
    {
      entities, mergedInto, aliases, facts, edges := {}, map[], {}, map[], map[];
      elsewhere, documents := map[], map[];
    }

    /** The whole merge succeeds, or nothing changes. It is refused exactly when the target does not
        exist, when the two entities share an alias, or when two facts in sight would get the same
        key. `setting` is the access setting in force. */
    method MergeEntities(e: Id, t: Id, setting: Option<string>) returns (ok: bool)
      requires Valid()
      modifies this
      ensures Valid() && entities == old(entities) && elsewhere == old(elsewhere) && documents == old(documents)
      ensures ok <==>
                && (e in entities ==> t in entities)
                && !AliasClash(old(aliases), e, t)
                && !FactClash(old(facts), Seen(documents, setting), e, t)
      ensures ok ==>
                && mergedInto == (if e in entities then old(mergedInto)[e := t] else old(mergedInto))
                && aliases == SubstAliases(old(aliases), e, t)
                && AliasesMoved(old(aliases), aliases, e, t) && |aliases| == |old(aliases)|
                && facts == SubstFacts(old(facts), Seen(documents, setting), e, t)
                && FactsMoved(old(facts), facts, Seen(documents, setting), e, t)
                && edges == Rewrite(old(edges), e, t)
                && (e != t ==> EdgesMoved(old(edges), edges, e, t))
      ensures !ok ==> mergedInto == old(mergedInto) && aliases == old(aliases) && facts == old(facts) && edges == old(edges)
    {
      hide ReferencesHold, AliasesMoved, FactsMoved, EdgesMoved, Rewrite, FactClash, SubstFacts, SubstAliases;
      hide AliasClash, Unique, Seen;
      if e in entities && t !in entities {
        return false;
      }
      if AliasClash(aliases, e, t) {
        return false;
      }
      var moved := MoveFacts(facts, Seen(documents, setting), e, t);
      if moved.None? {
        return false;
      }
      RewriteKeepsValid(edges, e, t);
      MergeKeepsReferences(entities, mergedInto, aliases, facts, edges, elsewhere, documents, Seen(documents, setting), e, t);
      SubstAliasesMoves(aliases, e, t);
      SubstFactsMoves(facts, Seen(documents, setting), e, t);
      if e != t {
        RewriteMoves(edges, e, t);
      }
      var rewritten := RewriteEdges(edges, e, t);
      if e in entities {
        mergedInto := mergedInto[e := t];
      }
      aliases := SubstAliases(aliases, e, t);
      facts := moved.value;
      edges := rewritten;
      return true;
    }
  }

  /** The two updates of the fact table, each checked against the natural key. */
  method MoveFacts(facts: map<RowId, FactKey>, seen: set<Id>, e: Id, t: Id) returns (moved: Option<map<RowId, FactKey>>)
    requires Unique(facts)
    ensures moved == if FactClash(facts, seen, e, t) then None else Some(SubstFacts(facts, seen, e, t))
    ensures moved.Some? ==> Unique(moved.value)
  {
    CollisionsPersist(facts, seen, e, t);
    UniqueIffNoClash(facts, seen, e, t);
    var bySubject := SubjectPass(facts, seen, e, t);
    if !Unique(bySubject) {
      return None;
    }
    var byParameter := ParameterPass(bySubject, seen, e, t);
    if !Unique(byParameter) {
      return None;
    }
    return Some(byParameter);
  }

  lemma AliasesKeepEntities(aliases: set<AliasKey>, entities: set<Id>, e: Id, t: Id)
    requires forall a :: a in aliases ==> a.entity in entities
    requires e in entities ==> t in entities
    ensures forall a :: a in SubstAliases(aliases, e, t) ==> a.entity in entities
  {
  }

  lemma FactsKeepEntities(facts: map<RowId, FactKey>, seen: set<Id>, entities: set<Id>, documents: map<Id, Access>, e: Id, t: Id)
    requires forall i :: i in facts ==> facts[i].subject in entities && facts[i].parameter in entities
    requires forall i :: i in facts ==> facts[i].document in documents
    requires e in entities ==> t in entities
    ensures
      var after := SubstFacts(facts, seen, e, t);
      forall i :: i in after ==> after[i].subject in entities && after[i].parameter in entities && after[i].document in documents
  {
  }

  /** The two updates and the cleanup of the edge table. */
  method RewriteEdges(edges: map<RowId, EdgeKey>, e: Id, t: Id) returns (rewritten: map<RowId, EdgeKey>)
    ensures rewritten == Rewrite(edges, e, t)
  {
    rewritten := edges;
    var sides := [Src, Dst];
    for s := 0 to |sides|
      invariant s == 0 ==> rewritten == edges
      invariant s == 1 ==> rewritten == Pass(edges, Src, e, t)
      invariant s == 2 ==> rewritten == Pass(Pass(edges, Src, e, t), Dst, e, t)
    {
      rewritten := Pass(rewritten, sides[s], e, t);
    }
    rewritten := Cleanup(rewritten, e, t);
  }

  lemma RewriteKeepsValid(edges: map<RowId, EdgeKey>, e: Id, t: Id)
    requires Unique(edges)
    ensures Unique(Rewrite(edges, e, t))
  {
    PassKeepsUnique(edges, Src, e, t);
    PassKeepsUnique(Pass(edges, Src, e, t), Dst, e, t);
  }

  lemma RewriteKeepsEntities(edges: map<RowId, EdgeKey>, entities: set<Id>, e: Id, t: Id)
    requires forall i :: i in edges ==> edges[i].src in entities && edges[i].dst in entities
    requires e in entities ==> t in entities
    ensures forall i :: i in Rewrite(edges, e, t) ==>
              Rewrite(edges, e, t)[i].src in entities && Rewrite(edges, e, t)[i].dst in entities
  {
    var first := Pass(edges, Src, e, t);
    forall i | i in first ensures first[i].src in entities && first[i].dst in entities {
      assert edges[i].src in entities;
    }
    var second := Pass(first, Dst, e, t);
    forall i | i in second ensures second[i].src in entities && second[i].dst in entities {
      assert first[i].dst in entities;
    }
  }
}
