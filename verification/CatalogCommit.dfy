/** Committing an extraction: names are resolved to entities or drafted as new ones, facts refer to
    them by id, and the transaction inserts everything, adopting the existing row wherever a new
    entity's slug is already taken. */
module CatalogCommit {

  import opened Basics
  import opened Dedupe

  type Id = nat

  datatype Slug = Slug(text: string)
  datatype Hash = Hash(hex: string)
  datatype Code = Code(text: string)
  /** The rest of the natural key of a fact: `text` holds its operator and bounds. An empty unit code
      is stored as no unit. */
  datatype Columns = Columns(text: string, unit: Option<Code>)
  /** The bounds in SI units, from which a range column is generated. */
  datatype Span = Span(lo: Option<real>, hi: Option<real>)
  /** A name in the form in which names are compared. */
  datatype Key = Key(text: string)

  /** An entity about to be created; two drafts that slugify alike share a slug. */
  datatype Draft = Draft(etype: string, name: string, slug: Slug)

  datatype Entity = Entity(id: Id, draft: Draft)

  /** One entity of the bundle, by name (or slug when it has no name) and type. */
  datatype Mention = Mention(name: string, etype: string)

  datatype Chunk = Chunk(id: string, ordinal: nat)

  /** A numeric candidate; `hash` is its condition hash, `values` the other columns of the natural
      key, and `valid` says whether its operator is known. */
  datatype Candidate = Candidate(
    subject: string, parameter: string, valid: bool, chunkId: string, hash: Hash, values: Columns, si: Span)

  datatype Bundle = Bundle(mentions: seq<Mention>, chunks: seq<Chunk>, candidates: seq<Candidate>)

  datatype ChunkInsert = ChunkInsert(id: Id, ordinal: nat)

  datatype Fact = Fact(id: Id, subject: Id, parameter: Id, chunk: Option<Id>, hash: Hash, values: Columns, si: Span)

  datatype Command = Command(newEntities: seq<Entity>, chunks: seq<ChunkInsert>, facts: seq<Fact>)

  // ----- building the command -----------------------------------------------

  function Slugs(es: seq<Entity>): set<Slug> {
    set i | 0 <= i < |es| :: es[i].draft.slug
  }

  function Ids(es: seq<Entity>): set<Id> {
    set i | 0 <= i < |es| :: es[i].id
  }

  /** The id given to the last chunk that carries a name. Chunks without a name share the empty one,
      and so do candidates that name no chunk. */
  function ChunkFor(chunks: seq<Chunk>, inserts: seq<ChunkInsert>, name: string): Option<Id>
    requires |inserts| == |chunks|
  {
    if chunks == [] then None
    else if chunks[|chunks| - 1].id == name then Some(inserts[|chunks| - 1].id)
    else ChunkFor(chunks[..|chunks| - 1], inserts[..|chunks| - 1], name)
  }

  /** A name leads to a chunk exactly when that chunk carries it and no later one does. */
  lemma {:induction false} ChunkForIff(chunks: seq<Chunk>, inserts: seq<ChunkInsert>, name: string, i: nat)
    requires |inserts| == |chunks| && i < |chunks|
    requires forall j, k :: 0 <= j < k < |inserts| ==> inserts[j].id != inserts[k].id
    ensures ChunkFor(chunks, inserts, name) == Some(inserts[i].id) <==>
              chunks[i].id == name && forall j :: i < j < |chunks| ==> chunks[j].id != name
    ensures ChunkFor(chunks, inserts, name).None? <==> forall j :: 0 <= j < |chunks| ==> chunks[j].id != name
  {
    var last := |chunks| - 1;
    if i < last {
      ChunkForIff(chunks[..last], inserts[..last], name, i);
    } else if i > 0 {
      ChunkForIff(chunks[..last], inserts[..last], name, i - 1);
      ChunkForIsInsert(chunks[..last], inserts[..last], name);
    }
  }

  lemma {:induction false} ChunkForIsInsert(chunks: seq<Chunk>, inserts: seq<ChunkInsert>, name: string)
    requires |inserts| == |chunks|
    ensures ChunkFor(chunks, inserts, name).Some? ==>
              exists k :: 0 <= k < |inserts| && inserts[k].id == ChunkFor(chunks, inserts, name).value
  {
    if chunks != [] {
      var last := |chunks| - 1;
      ChunkForIsInsert(chunks[..last], inserts[..last], name);
      assert inserts[last].id == inserts[last].id;
    }
  }

  /** How names are compared, and how an entity is drafted from a default type and a name, which
      may be refused. */
  datatype Naming = Naming(norm: string -> Key, draft: (string, string) -> Option<Draft>)

  /** The names with an id, the entities drafted so far, and the next unused id. */
  datatype Names = Names(index: map<Key, Id>, drafted: seq<Entity>, next: Id)

  /** The id of a name: the one it already has, or that of an entity drafted for it. */
  function RefOf(n: Names, w: Naming, name: string, etype: string): Option<Id> {
    if w.norm(name) in n.index then Some(n.index[w.norm(name)])
    else if w.draft(etype, name).None? then None
    else Some(n.next)
  }

  /** A newly drafted entity is registered under the name and under its slug. */
  function Registered(n: Names, w: Naming, name: string, etype: string): Names {
    if w.norm(name) in n.index || w.draft(etype, name).None? then n
    else
      var d := w.draft(etype, name).value;
      Names(n.index[w.norm(name) := n.next][w.norm(d.slug.text) := n.next], n.drafted + [Entity(n.next, d)], n.next + 1)
  }

  function AllRegistered(n: Names, w: Naming, mentions: seq<Mention>): Names {
    if mentions == [] then n
    else
      var last := mentions[|mentions| - 1];
      Registered(AllRegistered(n, w, mentions[..|mentions| - 1]), w, last.name, last.etype)
  }

  function Inserts(chunks: seq<Chunk>, next: Id): seq<ChunkInsert> {
    if chunks == [] then []
    else
      var init := chunks[..|chunks| - 1];
      Inserts(init, next) + [ChunkInsert(next + |init|, chunks[|init|].ordinal)]
  }

  lemma {:induction false} InsertsAre(chunks: seq<Chunk>, next: Id)
    ensures |Inserts(chunks, next)| == |chunks|
    ensures forall i :: 0 <= i < |chunks| ==> Inserts(chunks, next)[i] == ChunkInsert(next + i, chunks[i].ordinal)
  {
    if chunks != [] {
      InsertsAre(chunks[..|chunks| - 1], next);
    }
  }

  datatype Drafts = Drafts(names: Names, facts: seq<Fact>)

  /** One candidate: skipped when its operator is unknown or one of its names is refused, although
      a subject registered on the way stays. */
  function AddFact(d: Drafts, w: Naming, chunk: Option<Id>, c: Candidate): Drafts {
    if !c.valid || RefOf(d.names, w, c.subject, "process").None? then d
    else
      var subject := RefOf(d.names, w, c.subject, "process").value;
      var n := Registered(d.names, w, c.subject, "process");
      var parameter := RefOf(n, w, c.parameter, "parameter");
      if parameter.None? then d.(names := n)
      else
        var m := Registered(n, w, c.parameter, "parameter");
        Drafts(m.(next := m.next + 1), d.facts + [Fact(m.next, subject, parameter.value, chunk, c.hash, c.values, c.si)])
  }

  function AllFacts(n: Names, w: Naming, chunkOf: string -> Option<Id>, candidates: seq<Candidate>): Drafts {
    if candidates == [] then Drafts(n, [])
    else
      var last := candidates[|candidates| - 1];
      AddFact(AllFacts(n, w, chunkOf, candidates[..|candidates| - 1]), w, chunkOf(last.chunkId), last)
  }

  function ChunkIds(chunks: seq<Chunk>, inserts: seq<ChunkInsert>): string -> Option<Id>
    requires |inserts| == |chunks|
  {
    (name: string) => ChunkFor(chunks, inserts, name)
  }

  /** The candidates of a bundle, once its mentions are registered and its chunks have ids. */
  function Drafted(named: Names, w: Naming, bundle: Bundle): Drafts {
    InsertsAre(bundle.chunks, named.next);
    AllFacts(named.(next := named.next + |bundle.chunks|), w,
             ChunkIds(bundle.chunks, Inserts(bundle.chunks, named.next)), bundle.candidates)
  }

  function CommandAfter(named: Names, w: Naming, bundle: Bundle): Command {
    var d := Drafted(named, w, bundle);
    Command(d.names.drafted, Inserts(bundle.chunks, named.next), d.facts)
  }

  /** The command for a bundle, given what resolution found. */
  function CommandFor(n: Names, w: Naming, bundle: Bundle): Command {
    CommandAfter(AllRegistered(n, w, bundle.mentions), w, bundle)
  }

  class Builder {
    const w: Naming
    var nameIndex: map<Key, Id>
    var newEntities: seq<Entity>
    var next: Id

    ghost function State(): Names
      reads this
    {
      Names(nameIndex, newEntities, next)
    }

    /** `floor` is above every id in use. */
    constructor (w: Naming, resolved: map<Key, Id>, floor: Id)
      ensures this.w == w && State() == Names(resolved, [], floor)
    {
      this.w := w;
      nameIndex := resolved;
      newEntities := [];
      next := floor;
    }

    method ResolveRef(name: string, defaultType: string) returns (r: Option<Id>)
      modifies this
      ensures r == RefOf(old(State()), w, name, defaultType)
      ensures State() == Registered(old(State()), w, name, defaultType)
    {
      var key := w.norm(name);
      if key in nameIndex {
        return Some(nameIndex[key]);
      }
      var made := w.draft(defaultType, name);
      if made.None? {
        return None;
      }
      var entity := Entity(next, made.value);
      next := next + 1;
      nameIndex := nameIndex[key := entity.id];
      nameIndex := nameIndex[w.norm(made.value.slug.text) := entity.id];
      newEntities := newEntities + [entity];
      return Some(entity.id);
    }

    method AddMentions(mentions: seq<Mention>)
      modifies this
      ensures State() == AllRegistered(old(State()), w, mentions)
    {
      for i := 0 to |mentions|
        invariant State() == AllRegistered(old(State()), w, mentions[..i])
      {
        assert mentions[..i + 1][..i] == mentions[..i];
        if w.norm(mentions[i].name) in nameIndex {
          continue;
        }
        var r := ResolveRef(mentions[i].name, mentions[i].etype);
      }
      assert mentions[..|mentions|] == mentions;
    }

    method AddChunks(chunks: seq<Chunk>) returns (inserts: seq<ChunkInsert>)
      modifies this
      ensures inserts == Inserts(chunks, old(next))
      ensures State() == old(State()).(next := old(next) + |chunks|)
    {
      inserts := [];
      for i := 0 to |chunks|
        invariant inserts == Inserts(chunks[..i], old(next))
        invariant State() == old(State()).(next := old(next) + i)
      {
        assert chunks[..i + 1][..i] == chunks[..i];
        inserts := inserts + [ChunkInsert(next, chunks[i].ordinal)];
        next := next + 1;
      }
      assert chunks[..|chunks|] == chunks;
    }

    method AddFacts(candidates: seq<Candidate>, chunkOf: string -> Option<Id>) returns (facts: seq<Fact>)
      modifies this
      ensures Drafts(State(), facts) == AllFacts(old(State()), w, chunkOf, candidates)
    {
      facts := [];
      for i := 0 to |candidates|
        invariant Drafts(State(), facts) == AllFacts(old(State()), w, chunkOf, candidates[..i])
      {
        assert candidates[..i + 1][..i] == candidates[..i];
        var candidate := candidates[i];
        if !candidate.valid {
          continue;
        }
        var subject := ResolveRef(candidate.subject, "process");
        if subject.None? {
          continue;
        }
        var parameter := ResolveRef(candidate.parameter, "parameter");
        if parameter.None? {
          continue;
        }
        var chunk := chunkOf(candidate.chunkId);
        facts := facts + [Fact(next, subject.value, parameter.value, chunk, candidate.hash, candidate.values, candidate.si)];
        next := next + 1;
      }
      assert candidates[..|candidates|] == candidates;
    }

    /** Chunks, then facts. */
    method AddContents(bundle: Bundle) returns (cmd: Command)
      modifies this
      ensures cmd == CommandAfter(old(State()), w, bundle)
    {
      InsertsAre(bundle.chunks, next);
      var chunks := AddChunks(bundle.chunks);
      var facts := AddFacts(bundle.candidates, ChunkIds(bundle.chunks, chunks));
      cmd := Command(newEntities, chunks, facts);
    }

    method Build(bundle: Bundle) returns (cmd: Command)
      modifies this
      ensures cmd == CommandFor(old(State()), w, bundle)
    {
      AddMentions(bundle.mentions);
      cmd := AddContents(bundle);
    }
  }

  // ----- what the command guarantees ----------------------------------------

  /** Drafted entities carry increasing ids from `floor` up, and every indexed id is a resolved one
      or a drafted one. */
  ghost predicate Coherent(n: Names, known: set<Id>, floor: Id) {
    && floor <= n.next
    && (forall i :: 0 <= i < |n.drafted| ==> floor <= n.drafted[i].id < n.next)
    && (forall i, j :: 0 <= i < j < |n.drafted| ==> n.drafted[i].id < n.drafted[j].id)
    && (forall k :: k in n.index ==> n.index[k] in known + Ids(n.drafted))
  }

  lemma IdsAppend(es: seq<Entity>, e: Entity)
    ensures Ids(es + [e]) == Ids(es) + {e.id}
  {
    var more := es + [e];
    assert more[|es|] == e;
    forall id | id in Ids(es) ensures id in Ids(more) {
      var i :| 0 <= i < |es| && es[i].id == id;
      assert more[i].id == id;
    }
  }

  lemma RegisteredCoherent(n: Names, w: Naming, name: string, etype: string, known: set<Id>, floor: Id)
    requires Coherent(n, known, floor)
    ensures
      var m, r := Registered(n, w, name, etype), RefOf(n, w, name, etype);
      && Coherent(m, known, floor) && Ids(n.drafted) <= Ids(m.drafted)
      && (r.Some? ==> r.value in known + Ids(m.drafted))
  {
    if w.norm(name) !in n.index && w.draft(etype, name).Some? {
      IdsAppend(n.drafted, Entity(n.next, w.draft(etype, name).value));
    }
  }

  lemma {:induction false} MentionsCoherent(n: Names, w: Naming, mentions: seq<Mention>, known: set<Id>, floor: Id)
    requires Coherent(n, known, floor)
    ensures Coherent(AllRegistered(n, w, mentions), known, floor)
  {
    if mentions != [] {
      var init, last := mentions[..|mentions| - 1], mentions[|mentions| - 1];
      MentionsCoherent(n, w, init, known, floor);
      RegisteredCoherent(AllRegistered(n, w, init), w, last.name, last.etype, known, floor);
    }
  }

  ghost predicate EndsAmong(facts: seq<Fact>, ids: set<Id>) {
    forall k :: 0 <= k < |facts| ==> facts[k].subject in ids && facts[k].parameter in ids
  }

  lemma {:induction false} FactsCoherent(n: Names, w: Naming, chunkOf: string -> Option<Id>, candidates: seq<Candidate>,
                                         known: set<Id>, floor: Id)
    requires Coherent(n, known, floor)
    ensures var d := AllFacts(n, w, chunkOf, candidates);
            Coherent(d.names, known, floor) && EndsAmong(d.facts, known + Ids(d.names.drafted))
  {
    if candidates != [] {
      var init, c := candidates[..|candidates| - 1], candidates[|candidates| - 1];
      FactsCoherent(n, w, chunkOf, init, known, floor);
      AddFactCoherent(AllFacts(n, w, chunkOf, init), w, chunkOf(c.chunkId), c, known, floor);
    }
  }

  lemma AddFactCoherent(d: Drafts, w: Naming, chunk: Option<Id>, c: Candidate, known: set<Id>, floor: Id)
    requires Coherent(d.names, known, floor) && EndsAmong(d.facts, known + Ids(d.names.drafted))
    ensures var e := AddFact(d, w, chunk, c);
            Coherent(e.names, known, floor) && EndsAmong(e.facts, known + Ids(e.names.drafted))
  {
    var subject := RefOf(d.names, w, c.subject, "process");
    if c.valid && subject.Some? {
      var n := Registered(d.names, w, c.subject, "process");
      RegisteredCoherent(d.names, w, c.subject, "process", known, floor);
      EndsAmongMore(d.facts, known + Ids(d.names.drafted), known + Ids(n.drafted));
      if RefOf(n, w, c.parameter, "parameter").Some? {
        SecondEndCoherent(n, w, d.facts, subject.value, chunk, c, known, floor);
      }
    }
  }

  lemma SecondEndCoherent(n: Names, w: Naming, facts: seq<Fact>, subject: Id, chunk: Option<Id>, c: Candidate,
                          known: set<Id>, floor: Id)
    requires Coherent(n, known, floor) && EndsAmong(facts, known + Ids(n.drafted)) && subject in known + Ids(n.drafted)
    requires RefOf(n, w, c.parameter, "parameter").Some?
    ensures
      var m, parameter := Registered(n, w, c.parameter, "parameter"), RefOf(n, w, c.parameter, "parameter").value;
      && Coherent(m.(next := m.next + 1), known, floor)
      && EndsAmong(facts + [Fact(m.next, subject, parameter, chunk, c.hash, c.values, c.si)], known + Ids(m.drafted))
  {
    RegisteredCoherent(n, w, c.parameter, "parameter", known, floor);
    var m := Registered(n, w, c.parameter, "parameter");
    EndsAmongMore(facts, known + Ids(n.drafted), known + Ids(m.drafted));
    IdDrawn(m, known, floor);
  }

  lemma EndsAmongMore(facts: seq<Fact>, ids: set<Id>, more: set<Id>)
    requires EndsAmong(facts, ids) && ids <= more
    ensures EndsAmong(facts, more)
  {
  }

  lemma IdDrawn(n: Names, known: set<Id>, floor: Id)
    requires Coherent(n, known, floor)
    ensures Coherent(n.(next := n.next + 1), known, floor)
  {
  }

  ghost predicate Fresh(es: seq<Entity>, used: set<Id>) {
    forall i :: 0 <= i < |es| ==> es[i].id !in used
  }

  /** What the transaction asks of a command, given the ids resolution found and those in use. */
  ghost predicate Committable(cmd: Command, known: set<Id>, used: set<Id>) {
    && known <= used && DistinctIds(cmd.newEntities)
    && Fresh(cmd.newEntities, used)
    && EndsAmong(cmd.facts, known + Ids(cmd.newEntities))
  }

  /** Every command built from fresh ids can be committed. */
  lemma CommandIsCommittable(w: Naming, resolved: map<Key, Id>, floor: Id, bundle: Bundle, used: set<Id>)
    requires resolved.Values <= used && forall id :: id in used ==> id < floor
    ensures Committable(CommandFor(Names(resolved, [], floor), w, bundle), resolved.Values, used)
  {
    var n, known := Names(resolved, [], floor), resolved.Values;
    DraftedCoherent(n, w, bundle, known, floor);
    var drafted := CommandFor(n, w, bundle).newEntities;
    assert forall i :: 0 <= i < |drafted| ==> drafted[i].id >= floor;
  }

  lemma DraftedCoherent(n: Names, w: Naming, bundle: Bundle, known: set<Id>, floor: Id)
    requires Coherent(n, known, floor)
    ensures var d := Drafted(AllRegistered(n, w, bundle.mentions), w, bundle);
            Coherent(d.names, known, floor) && EndsAmong(d.facts, known + Ids(d.names.drafted))
  {
    var named := AllRegistered(n, w, bundle.mentions);
    MentionsCoherent(n, w, bundle.mentions, known, floor);
    InsertsAre(bundle.chunks, named.next);
    var m := named.(next := named.next + |bundle.chunks|);
    FactsCoherent(m, w, ChunkIds(bundle.chunks, Inserts(bundle.chunks, named.next)), bundle.candidates, known, floor);
  }

  /** The chunks of a command keep their ordinals, and their ids are new and distinct. */
  lemma ChunksAreNew(n: Names, w: Naming, bundle: Bundle)
    ensures
      var chunks := CommandFor(n, w, bundle).chunks;
      && |chunks| == |bundle.chunks|
      && (forall i :: 0 <= i < |chunks| ==> chunks[i].ordinal == bundle.chunks[i].ordinal && chunks[i].id >= n.next)
      && (forall i, j :: 0 <= i < j < |chunks| ==> chunks[i].id != chunks[j].id)
  {
    InsertsAre(bundle.chunks, AllRegistered(n, w, bundle.mentions).next);
    NextGrows(n, w, bundle.mentions);
  }

  lemma {:induction false} NextGrows(n: Names, w: Naming, mentions: seq<Mention>)
    ensures n.next <= AllRegistered(n, w, mentions).next
  {
    if mentions != [] {
      NextGrows(n, w, mentions[..|mentions| - 1]);
    }
  }

  /** The index once a name has got an id: if the name was not there, it is registered, and so is the
      slug of the entity drafted for it. */
  function Indexed(index: map<Key, Id>, w: Naming, name: string, etype: string, id: Id): map<Key, Id> {
    if w.norm(name) in index || w.draft(etype, name).None? then index
    else index[w.norm(name) := id][w.norm(w.draft(etype, name).value.slug.text) := id]
  }

  /** The id is the one the name has; or, when it has none, that of a new entity drafted for it. */
  ghost predicate Refers(index: map<Key, Id>, drafted: seq<Entity>, w: Naming, name: string, etype: string, id: Id) {
    if w.norm(name) in index then id == index[w.norm(name)]
    else exists i :: 0 <= i < |drafted| && drafted[i].id == id && w.draft(etype, name) == Some(drafted[i].draft)
  }

  /** A fact says what a candidate says, about the entities that its names meant when it was reached. */
  ghost predicate FromCandidate(f: Fact, c: Candidate, w: Naming, chunkOf: string -> Option<Id>, index: map<Key, Id>,
                                drafted: seq<Entity>)
  {
    && c.valid && f.chunk == chunkOf(c.chunkId) && f.hash == c.hash && f.values == c.values && f.si == c.si
    && Refers(index, drafted, w, c.subject, "process", f.subject)
    && Refers(Indexed(index, w, c.subject, "process", f.subject), drafted, w, c.parameter, "parameter", f.parameter)
  }

  /** Registering a name that is not refused makes it known under its id, keeps what was drafted, and
      changes the index as said. */
  lemma RegisteredIs(n: Names, w: Naming, name: string, etype: string)
    ensures RefOf(n, w, name, etype).None? <==> w.norm(name) !in n.index && w.draft(etype, name).None?
    ensures
      var m, r := Registered(n, w, name, etype), RefOf(n, w, name, etype);
      && n.drafted <= m.drafted && |m.drafted| <= |n.drafted| + 1
      && (r.None? ==> m == n)
      && (r.Some? ==> Refers(n.index, m.drafted, w, name, etype, r.value) && m.index == Indexed(n.index, w, name, etype, r.value))
  {
    var m := Registered(n, w, name, etype);
    if w.norm(name) !in n.index && w.draft(etype, name).Some? {
      assert m.drafted[|n.drafted|] == Entity(n.next, w.draft(etype, name).value);
    }
  }

  lemma RefersMore(index: map<Key, Id>, drafted: seq<Entity>, more: seq<Entity>, w: Naming, name: string, etype: string, id: Id)
    requires Refers(index, drafted, w, name, etype, id) && drafted <= more
    ensures Refers(index, more, w, name, etype, id)
  {
    if w.norm(name) !in index {
      var i :| 0 <= i < |drafted| && drafted[i].id == id && w.draft(etype, name) == Some(drafted[i].draft);
      assert more[i] == drafted[i];
    }
  }

  /** What one candidate adds, and what it does to the index. */
  lemma AddFactIs(d: Drafts, w: Naming, chunkOf: string -> Option<Id>, c: Candidate)
    ensures
      var e := AddFact(d, w, chunkOf(c.chunkId), c);
      && d.names.drafted <= e.names.drafted
      && d.facts <= e.facts && |e.facts| <= |d.facts| + 1
      && (|e.facts| == |d.facts| + 1 ==>
            var f := e.facts[|d.facts|];
            && FromCandidate(f, c, w, chunkOf, d.names.index, e.names.drafted)
            && e.names.index == Indexed(Indexed(d.names.index, w, c.subject, "process", f.subject),
                                        w, c.parameter, "parameter", f.parameter))
  {
    hide Registered, RefOf;
    RegisteredIs(d.names, w, c.subject, "process");
    var subject, n := RefOf(d.names, w, c.subject, "process"), Registered(d.names, w, c.subject, "process");
    if c.valid && subject.Some? {
      RegisteredIs(n, w, c.parameter, "parameter");
      var m := Registered(n, w, c.parameter, "parameter");
      RefersMore(d.names.index, n.drafted, m.drafted, w, c.subject, "process", subject.value);
    }
  }

  /** A candidate is passed over exactly when its operator is unknown or one of its names is refused;
      a subject that was registered on the way stays. */
  lemma PassedOverIff(d: Drafts, w: Naming, chunk: Option<Id>, c: Candidate)
    ensures
      var e, n := AddFact(d, w, chunk, c), Registered(d.names, w, c.subject, "process");
      && (e.facts == d.facts <==>
            || !c.valid
            || RefOf(d.names, w, c.subject, "process").None? || RefOf(n, w, c.parameter, "parameter").None?)
      && (e.facts == d.facts ==> e.names == if c.valid then n else d.names)
  {
    hide Registered;
    RegisteredIs(d.names, w, c.subject, "process");
  }

  /** The index when a candidate is reached. */
  function IndexBefore(n: Names, w: Naming, chunkOf: string -> Option<Id>, candidates: seq<Candidate>, i: nat): map<Key, Id>
    requires i <= |candidates|
  {
    AllFacts(n, w, chunkOf, candidates[..i]).names.index
  }

  /** The places of the candidates with a known operator. */
  function Places(candidates: seq<Candidate>): seq<nat> {
    if candidates == [] then []
    else
      var earlier, last := Places(candidates[..|candidates| - 1]), |candidates| - 1;
      if candidates[last].valid then earlier + [last] else earlier
  }

  lemma {:induction false} PlacesAre(candidates: seq<Candidate>)
    ensures
      var places := Places(candidates);
      && (forall i: nat :: i in places <==> i < |candidates| && candidates[i].valid)
      && (forall k, l :: 0 <= k < l < |places| ==> places[k] < places[l])
  {
    if candidates != [] {
      var init := candidates[..|candidates| - 1];
      PlacesAre(init);
      var earlier := Places(init);
      forall k | 0 <= k < |earlier| ensures earlier[k] < |init| {
        assert earlier[k] in earlier;
      }
      assert forall i: nat :: i < |init| ==> candidates[i] == init[i];
    }
  }

  /** As long as no name is refused, every candidate with a known operator becomes a fact, in order. */
  lemma {:induction false} NoCandidateLost(n: Names, w: Naming, chunkOf: string -> Option<Id>, candidates: seq<Candidate>)
    requires forall c :: c in candidates && c.valid ==>
               w.draft("process", c.subject).Some? && w.draft("parameter", c.parameter).Some?
    ensures var d, places := AllFacts(n, w, chunkOf, candidates), Places(candidates);
            && |d.facts| == |places|
            && forall k :: 0 <= k < |places| ==>
                 && places[k] < |candidates|
                 && FromCandidate(d.facts[k], candidates[places[k]], w, chunkOf,
                                  IndexBefore(n, w, chunkOf, candidates, places[k]), d.names.drafted)
  {
    if candidates != [] {
      var init, last := candidates[..|candidates| - 1], |candidates| - 1;
      assert candidates[last] in candidates && forall c :: c in init ==> c in candidates;
      NoCandidateLost(n, w, chunkOf, init);
      PlacesAre(init);
      var d := AllFacts(n, w, chunkOf, init);
      AddFactIs(d, w, chunkOf, candidates[last]);
      PassedOverIff(d, w, chunkOf(candidates[last].chunkId), candidates[last]);
      EarlierFactsStay(n, w, chunkOf, candidates);
      assert forall i :: 0 <= i <= last ==> candidates[..i] == init[..i];
      assert forall k :: 0 <= k < |Places(init)| ==> Places(init)[k] in Places(init);
    }
  }

  /** The last candidate leaves earlier facts as they are. */
  lemma EarlierFactsStay(n: Names, w: Naming, chunkOf: string -> Option<Id>, candidates: seq<Candidate>)
    requires candidates != []
    ensures
      var d, e := AllFacts(n, w, chunkOf, candidates[..|candidates| - 1]), AllFacts(n, w, chunkOf, candidates);
      && d.facts <= e.facts
      && forall f, c, index :: FromCandidate(f, c, w, chunkOf, index, d.names.drafted) ==>
                                 FromCandidate(f, c, w, chunkOf, index, e.names.drafted)
  {
    var d, e := AllFacts(n, w, chunkOf, candidates[..|candidates| - 1]), AllFacts(n, w, chunkOf, candidates);
    AddFactIs(d, w, chunkOf, candidates[|candidates| - 1]);
    forall f, c, index | FromCandidate(f, c, w, chunkOf, index, d.names.drafted)
      ensures FromCandidate(f, c, w, chunkOf, index, e.names.drafted)
    {
      RefersMore(index, d.names.drafted, e.names.drafted, w, c.subject, "process", f.subject);
      RefersMore(Indexed(index, w, c.subject, "process", f.subject), d.names.drafted, e.names.drafted, w, c.parameter,
                 "parameter", f.parameter);
    }
  }

  /** Every fact stems from a candidate with a known operator. */
  lemma {:induction false} FactOrigin(n: Names, w: Naming, chunkOf: string -> Option<Id>, candidates: seq<Candidate>, k: nat)
    returns (i: nat)
    requires k < |AllFacts(n, w, chunkOf, candidates).facts|
    ensures i < |candidates|
    ensures FromCandidate(AllFacts(n, w, chunkOf, candidates).facts[k], candidates[i], w, chunkOf,
                          IndexBefore(n, w, chunkOf, candidates, i), AllFacts(n, w, chunkOf, candidates).names.drafted)
  {
    var init := candidates[..|candidates| - 1];
    var d := AllFacts(n, w, chunkOf, init);
    EarlierFactsStay(n, w, chunkOf, candidates);
    if k < |d.facts| {
      i := FactOrigin(n, w, chunkOf, init, k);
      assert candidates[..i] == init[..i];
    } else {
      i := |init|;
      AddFactIs(d, w, chunkOf, candidates[i]);
      assert candidates[..i] == init;
    }
  }

  /** A fact of the command says what a candidate says, about the entities that its names meant when it
      was reached, and is attached to a chunk exactly when the candidate names that chunk and no later
      chunk has the same name. */
  lemma FactLandsIff(n: Names, w: Naming, bundle: Bundle, k: nat) returns (c: nat)
    requires k < |CommandFor(n, w, bundle).facts|
    ensures c < |bundle.candidates| && bundle.candidates[c].valid
    ensures |CommandFor(n, w, bundle).chunks| == |bundle.chunks|
    ensures
      var cmd, named := CommandFor(n, w, bundle), Named(n, w, bundle);
      && FromCandidate(cmd.facts[k], bundle.candidates[c], w, ChunkIds(bundle.chunks, cmd.chunks),
                       IndexBefore(named, w, ChunkIds(bundle.chunks, cmd.chunks), bundle.candidates, c), cmd.newEntities)
      && forall i :: 0 <= i < |bundle.chunks| ==>
           (cmd.facts[k].chunk == Some(cmd.chunks[i].id) <==> LastNamed(bundle.chunks, bundle.candidates[c].chunkId, i))
  {
    ChunksAreNew(n, w, bundle);
    var inserts := CommandFor(n, w, bundle).chunks;
    c := FactOrigin(Named(n, w, bundle), w, ChunkIds(bundle.chunks, inserts), bundle.candidates, k);
    forall i | 0 <= i < |bundle.chunks|
      ensures CommandFor(n, w, bundle).facts[k].chunk == Some(inserts[i].id) <==>
                LastNamed(bundle.chunks, bundle.candidates[c].chunkId, i)
    {
      ChunkForIff(bundle.chunks, inserts, bundle.candidates[c].chunkId, i);
    }
  }

  /** The names once the mentions are registered and the chunks have ids. */
  function Named(n: Names, w: Naming, bundle: Bundle): Names {
    var named := AllRegistered(n, w, bundle.mentions);
    named.(next := named.next + |bundle.chunks|)
  }

  /** Mentions are registered one by one: a name that is known or refused changes nothing, another one
      gets a new entity of the type mentioned. */
  lemma MentionIs(n: Names, w: Naming, mentions: seq<Mention>, m: Mention)
    ensures
      var before, after := AllRegistered(n, w, mentions), AllRegistered(n, w, mentions + [m]);
      && before.drafted <= after.drafted
      && (w.norm(m.name) in before.index || w.draft(m.etype, m.name).None? ==> after == before)
      && (w.norm(m.name) !in before.index && w.draft(m.etype, m.name).Some? ==>
            && w.norm(m.name) in after.index
            && Refers(before.index, after.drafted, w, m.name, m.etype, before.next)
            && after.index == Indexed(before.index, w, m.name, m.etype, before.next))
  {
    assert (mentions + [m])[..|mentions|] == mentions;
    RegisteredIs(AllRegistered(n, w, mentions), w, m.name, m.etype);
  }

  /** The chunk carries the name and no later one does. */
  ghost predicate LastNamed(chunks: seq<Chunk>, name: string, i: nat)
    requires i < |chunks|
  {
    chunks[i].id == name && forall j :: i < j < |chunks| ==> chunks[j].id != name
  }

  /** Naming a chunk leads to it, for every chunk, exactly when no two chunks share a name. */
  lemma ChunksAddressableIff(n: Names, w: Naming, bundle: Bundle)
    ensures |CommandFor(n, w, bundle).chunks| == |bundle.chunks|
    ensures
      var inserts := CommandFor(n, w, bundle).chunks;
      (forall i :: 0 <= i < |inserts| ==> ChunkFor(bundle.chunks, inserts, bundle.chunks[i].id) == Some(inserts[i].id)) <==>
        forall i, j :: 0 <= i < j < |inserts| ==> bundle.chunks[i].id != bundle.chunks[j].id
  {
    ChunksAreNew(n, w, bundle);
    var inserts := CommandFor(n, w, bundle).chunks;
    forall i | 0 <= i < |inserts|
      ensures ChunkFor(bundle.chunks, inserts, bundle.chunks[i].id) == Some(inserts[i].id) <==>
                forall j :: i < j < |inserts| ==> bundle.chunks[j].id != bundle.chunks[i].id
    {
      ChunkForIff(bundle.chunks, inserts, bundle.chunks[i].id, i);
    }
  }

  /** It fails already for two chunks without a name: a candidate without one lands on the second,
      and nothing leads to the first. */
  lemma UnnamedChunksCollapse(first: Id, second: Id)
    requires first != second
    ensures
      var chunks, inserts := [Chunk("", 0), Chunk("", 1)], [ChunkInsert(first, 0), ChunkInsert(second, 1)];
      ChunkFor(chunks, inserts, "") == Some(second) && forall name :: ChunkFor(chunks, inserts, name) != Some(first)
  {
    var chunks, inserts := [Chunk("", 0), Chunk("", 1)], [ChunkInsert(first, 0), ChunkInsert(second, 1)];
    ChunkForIff(chunks, inserts, "", 1);
    forall name ensures ChunkFor(chunks, inserts, name) != Some(first) {
      ChunkForIff(chunks, inserts, name, 0);
    }
  }

  /** Facts get new ids, all different. */
  lemma {:induction false} FactsAreNew(n: Names, w: Naming, chunkOf: string -> Option<Id>, candidates: seq<Candidate>)
    ensures var d := AllFacts(n, w, chunkOf, candidates);
            && n.next <= d.names.next
            && (forall k :: 0 <= k < |d.facts| ==> n.next <= d.facts[k].id < d.names.next)
            && (forall j, k :: 0 <= j < k < |d.facts| ==> d.facts[j].id < d.facts[k].id)
  {
    if candidates != [] {
      FactsAreNew(n, w, chunkOf, candidates[..|candidates| - 1]);
    }
  }

  // ----- the transaction ----------------------------------------------------

  datatype FactKey = FactKey(document: Id, subject: Id, parameter: Id, hash: Hash, values: Columns)

  datatype ChunkKey = ChunkKey(document: Id, version: nat, ordinal: nat)

  /** Entity rows by slug: the slug is unique, so it determines the row. */
  type Entities = map<Slug, Id>

  /** Inserting a new entity keeps the row that already has its slug. */
  function Upsert(entities: Entities, e: Entity): Entities {
    if e.draft.slug in entities then entities else entities[e.draft.slug := e.id]
  }

  function UpsertAll(entities: Entities, es: seq<Entity>): Entities {
    if es == [] then entities else Upsert(UpsertAll(entities, es[..|es| - 1]), es[|es| - 1])
  }

  /** The id under which an entity of the command is stored; other ids stand for themselves. */
  function Stored(entities: Entities, es: seq<Entity>, id: Id): Id {
    if es == [] then id
    else if es[|es| - 1].id == id && es[|es| - 1].draft.slug in entities then entities[es[|es| - 1].draft.slug]
    else Stored(entities, es[..|es| - 1], id)
  }

  lemma {:induction false} OldRowKept(entities: Entities, es: seq<Entity>, s: Slug)
    requires s in entities
    ensures s in UpsertAll(entities, es) && UpsertAll(entities, es)[s] == entities[s]
  {
    if es != [] {
      OldRowKept(entities, es[..|es| - 1], s);
    }
  }

  lemma {:induction false} NewSlugStored(entities: Entities, es: seq<Entity>, i: nat)
    requires i < |es|
    ensures es[i].draft.slug in UpsertAll(entities, es)
  {
    if i < |es| - 1 {
      NewSlugStored(entities, es[..|es| - 1], i);
    }
  }

  lemma {:induction false} RowOrigin(entities: Entities, es: seq<Entity>, s: Slug) returns (i: nat)
    requires s in UpsertAll(entities, es) && s !in entities
    ensures i < |es| && es[i].draft.slug == s && es[i].id == UpsertAll(entities, es)[s]
  {
    var init := es[..|es| - 1];
    if s in UpsertAll(entities, init) {
      i := RowOrigin(entities, init, s);
    } else {
      i := |init|;
    }
  }

  /** Existing rows stay; every new slug is present afterwards; and a slug that was free goes to a
      new entity that carries it. */
  lemma UpsertAllIs(entities: Entities, es: seq<Entity>)
    ensures
      var r := UpsertAll(entities, es);
      && r.Keys == entities.Keys + Slugs(es)
      && (forall s :: s in entities ==> r[s] == entities[s])
      && (forall s :: s in r && s !in entities ==> exists i :: 0 <= i < |es| && es[i].draft.slug == s && es[i].id == r[s])
  {
    var r := UpsertAll(entities, es);
    forall s | s in entities ensures s in r && r[s] == entities[s] {
      OldRowKept(entities, es, s);
    }
    forall i | 0 <= i < |es| ensures es[i].draft.slug in r {
      NewSlugStored(entities, es, i);
    }
    forall s | s in r && s !in entities ensures exists i :: 0 <= i < |es| && es[i].draft.slug == s && es[i].id == r[s] {
      var i := RowOrigin(entities, es, s);
    }
  }

  /** Every entity of the command has a row with its slug. */
  ghost predicate AllStored(rows: Entities, es: seq<Entity>) {
    forall i :: 0 <= i < |es| ==> es[i].draft.slug in rows
  }

  lemma UpsertStoresAll(entities: Entities, es: seq<Entity>)
    ensures AllStored(UpsertAll(entities, es), es)
  {
    forall i | 0 <= i < |es| ensures es[i].draft.slug in UpsertAll(entities, es) {
      NewSlugStored(entities, es, i);
    }
  }

  ghost predicate DistinctIds(es: seq<Entity>) {
    forall i, j :: 0 <= i < j < |es| ==> es[i].id != es[j].id
  }

  /** The ids of the rows stay unique. */
  ghost predicate UniqueIds(entities: Entities) {
    forall s, t :: s in entities && t in entities && entities[s] == entities[t] ==> s == t
  }

  lemma {:induction false} UpsertAllUnique(entities: Entities, es: seq<Entity>)
    requires UniqueIds(entities) && DistinctIds(es) && Fresh(es, entities.Values)
    ensures UniqueIds(UpsertAll(entities, es))
  {
    if es != [] {
      var init, last := es[..|es| - 1], es[|es| - 1];
      UpsertAllUnique(entities, init);
      var r := UpsertAll(entities, init);
      forall s | s in r ensures r[s] != last.id {
        if s in entities {
          OldRowKept(entities, init, s);
        } else {
          var i := RowOrigin(entities, init, s);
          assert es[i].id != es[|es| - 1].id;
        }
      }
    }
  }

  /** A new entity is stored under the row of its slug: entities that slugify alike, and existing
      ones, collapse to one row. */
  lemma {:induction false} StoredNew(entities: Entities, es: seq<Entity>, i: nat)
    requires i < |es| && DistinctIds(es) && AllStored(entities, es)
    ensures Stored(entities, es, es[i].id) == entities[es[i].draft.slug]
  {
    if i < |es| - 1 {
      StoredNew(entities, es[..|es| - 1], i);
    }
  }

  lemma {:induction false} StoredOld(entities: Entities, es: seq<Entity>, id: Id)
    requires forall i :: 0 <= i < |es| ==> es[i].id != id
    ensures Stored(entities, es, id) == id
  {
    if es != [] {
      StoredOld(entities, es[..|es| - 1], id);
    }
  }

  /** Chunks are inserted unless their place is taken; then the old row keeps its id. */
  function InsertChunks(chunks: map<ChunkKey, Id>, document: Id, version: nat, inserts: seq<ChunkInsert>): map<ChunkKey, Id> {
    if inserts == [] then chunks
    else
      var earlier := InsertChunks(chunks, document, version, inserts[..|inserts| - 1]);
      var last := inserts[|inserts| - 1];
      var key := ChunkKey(document, version, last.ordinal);
      if key in earlier then earlier else earlier[key := last.id]
  }

  /** A new chunk finds its place free: no row and no earlier chunk of the command has it. */
  ghost predicate NewPlace(chunks: map<ChunkKey, Id>, document: Id, version: nat, inserts: seq<ChunkInsert>, k: nat)
    requires k < |inserts|
  {
    && ChunkKey(document, version, inserts[k].ordinal) !in chunks
    && forall j :: 0 <= j < k ==> inserts[j].ordinal != inserts[k].ordinal
  }

  /** A chunk id is stored afterwards: it was before, or belongs to a new chunk that found its place free. */
  ghost predicate ChunkStored(chunks: map<ChunkKey, Id>, document: Id, version: nat, inserts: seq<ChunkInsert>, id: Id) {
    id in chunks.Values || exists k :: 0 <= k < |inserts| && inserts[k].id == id && NewPlace(chunks, document, version, inserts, k)
  }

  lemma {:induction false} PlaceTaken(chunks: map<ChunkKey, Id>, document: Id, version: nat, inserts: seq<ChunkInsert>, key: ChunkKey)
    ensures key in InsertChunks(chunks, document, version, inserts) <==>
              key in chunks || exists j :: 0 <= j < |inserts| && key == ChunkKey(document, version, inserts[j].ordinal)
    ensures key in chunks ==> InsertChunks(chunks, document, version, inserts)[key] == chunks[key]
  {
    if inserts != [] {
      var init, last := inserts[..|inserts| - 1], inserts[|inserts| - 1];
      PlaceTaken(chunks, document, version, init, key);
      if key == ChunkKey(document, version, last.ordinal) {
        assert inserts[|init|] == last;
      }
      if exists j :: 0 <= j < |init| && key == ChunkKey(document, version, init[j].ordinal) {
        var j :| 0 <= j < |init| && key == ChunkKey(document, version, init[j].ordinal);
        assert inserts[j] == init[j];
      }
    }
  }

  lemma {:induction false} ChunkStoredIff(chunks: map<ChunkKey, Id>, document: Id, version: nat, inserts: seq<ChunkInsert>, id: Id)
    ensures id in InsertChunks(chunks, document, version, inserts).Values <==> ChunkStored(chunks, document, version, inserts, id)
  {
    if inserts != [] {
      var init, last := inserts[..|inserts| - 1], inserts[|inserts| - 1];
      ChunkStoredIff(chunks, document, version, init, id);
      LastChunk(chunks, document, version, inserts, id);
      var earlier, key := InsertChunks(chunks, document, version, init), ChunkKey(document, version, last.ordinal);
      PlaceTaken(chunks, document, version, init, key);
      if key !in earlier {
        forall x ensures x in earlier[key := last.id].Values <==> x in earlier.Values || x == last.id {
          if x in earlier.Values {
            var k :| k in earlier && earlier[k] == x;
            assert earlier[key := last.id][k] == x;
          }
          assert earlier[key := last.id][key] == last.id;
        }
      }
    }
  }

  lemma LastChunk(chunks: map<ChunkKey, Id>, document: Id, version: nat, inserts: seq<ChunkInsert>, id: Id)
    requires inserts != []
    ensures
      var init := inserts[..|inserts| - 1];
      ChunkStored(chunks, document, version, inserts, id) <==>
        || ChunkStored(chunks, document, version, init, id)
        || (inserts[|init|].id == id && NewPlace(chunks, document, version, inserts, |init|))
  {
    var init := inserts[..|inserts| - 1];
    forall k | 0 <= k < |init| ensures NewPlace(chunks, document, version, init, k) <==> NewPlace(chunks, document, version, inserts, k) {
    }
    if k :| 0 <= k < |init| && init[k].id == id && NewPlace(chunks, document, version, init, k) {
      assert inserts[k].id == id && NewPlace(chunks, document, version, inserts, k);
    }
    if k :| 0 <= k < |inserts| && inserts[k].id == id && NewPlace(chunks, document, version, inserts, k) {
      if k < |init| {
        assert init[k].id == id && NewPlace(chunks, document, version, init, k);
      }
    }
  }

  function KeyOf(document: Id, f: Fact, entities: Entities, es: seq<Entity>): FactKey {
    FactKey(document, Stored(entities, es, f.subject), Stored(entities, es, f.parameter), f.hash, f.values)
  }

  /** What one insert statement is given: the fact under the ids of the rows. */
  datatype Row = Row(id: Id, key: FactKey, chunk: Option<Id>, si: Span)

  /** The ids and codes that a row may refer to. */
  datatype Refs = Refs(chunks: set<Id>, units: set<Code>)

  /** The bounds are in falling order, so that no range can be made of them. */
  predicate Reversed(si: Span) {
    si.lo.Some? && si.hi.Some? && si.lo.value > si.hi.value
  }

  /** The chunk and the unit that the row names are stored. */
  predicate Resolves(r: Row, refs: Refs) {
    && (r.chunk.Some? ==> r.chunk.value in refs.chunks)
    && (r.key.values.unit.Some? ==> r.key.values.unit.value in refs.units)
  }

  function Rows(document: Id, fs: seq<Fact>, entities: Entities, es: seq<Entity>): (r: seq<Row>)
    ensures |r| == |fs|
  {
    seq(|fs|, i requires 0 <= i < |fs| => Row(fs[i].id, KeyOf(document, fs[i], entities, es), fs[i].chunk, fs[i].si))
  }

  /** A row says what its fact says, about the rows that its entities are stored as. */
  lemma RowSays(document: Id, fs: seq<Fact>, entities: Entities, es: seq<Entity>, k: nat)
    requires k < |fs|
    ensures
      var r := Rows(document, fs, entities, es)[k];
      && r.id == fs[k].id && r.chunk == fs[k].chunk && r.si == fs[k].si
      && r.key.document == document && r.key.hash == fs[k].hash && r.key.values == fs[k].values
      && r.key.subject == Stored(entities, es, fs[k].subject) && r.key.parameter == Stored(entities, es, fs[k].parameter)
  {
  }

  /** Bounds are reversed exactly when no value lies between them. */
  lemma ReversedIff(si: Span)
    ensures Reversed(si) <==> !exists x :: Between(si, x)
  {
    if !Reversed(si) {
      var x := if si.lo.Some? then si.lo.value else if si.hi.Some? then si.hi.value else 0.0;
      assert Between(si, x);
    }
  }

  predicate Between(si: Span, x: real) {
    (si.lo.Some? ==> si.lo.value <= x) && (si.hi.Some? ==> x <= si.hi.value)
  }

  /** Stored facts: the natural key is unique and determines the row. */
  type Facts = map<FactKey, Id>

  /** The range of a row is computed first, and fails everything when the bounds are reversed. A row
      whose natural key is present is then skipped; inserting one that names a chunk or a unit that is
      not stored violates the reference and fails everything. */
  function InsertFacts(facts: Facts, rows: seq<Row>, refs: Refs): Option<Facts> {
    if rows == [] then Some(facts)
    else
      var earlier := InsertFacts(facts, rows[..|rows| - 1], refs);
      var r := rows[|rows| - 1];
      if earlier.None? || Reversed(r.si) then None
      else if r.key in earlier.value then earlier
      else if !Resolves(r, refs) then None
      else Some(earlier.value[r.key := r.id])
  }

  /** A row is not inserted: its key was stored before, or an earlier row has it. */
  ghost predicate Skipped(facts: Facts, rows: seq<Row>, i: nat)
    requires i < |rows|
  {
    rows[i].key in facts || exists j :: 0 <= j < i && rows[j].key == rows[i].key
  }

  /** A successful insertion keeps what was there and adds exactly the new keys, each with the id of
      its first row. */
  lemma {:induction false} InsertFactsIs(facts: Facts, rows: seq<Row>, refs: Refs, key: FactKey)
    requires InsertFacts(facts, rows, refs).Some?
    ensures
      var r := InsertFacts(facts, rows, refs).value;
      && (key in r <==> key in facts || exists i :: 0 <= i < |rows| && rows[i].key == key)
      && (key in facts ==> r[key] == facts[key])
      && (key in r && key !in facts ==> exists i :: 0 <= i < |rows| && rows[i].key == key && rows[i].id == r[key] && !Skipped(facts, rows, i))
  {
    if rows != [] {
      var init, last := rows[..|rows| - 1], rows[|rows| - 1];
      var earlier, r := InsertFacts(facts, init, refs).value, InsertFacts(facts, rows, refs).value;
      InsertFactsIs(facts, init, refs, key);
      InsertFactsIs(facts, init, refs, last.key);
      forall i | 0 <= i < |init| ensures rows[i] == init[i] && (Skipped(facts, init, i) <==> Skipped(facts, rows, i)) {
      }
      assert rows[|init|] == last;
      if key in earlier && key !in facts {
        var i :| 0 <= i < |init| && init[i].key == key && init[i].id == earlier[key] && !Skipped(facts, init, i);
        assert rows[i].key == key && rows[i].id == r[key] && !Skipped(facts, rows, i);
      } else if key in r && key !in facts {
        assert !Skipped(facts, rows, |init|);
      }
    }
  }

  /** A row does no harm: its bounds are in order, and it is skipped or what it names is stored. */
  ghost predicate Insertable(facts: Facts, rows: seq<Row>, refs: Refs, i: nat)
    requires i < |rows|
  {
    !Reversed(rows[i].si) && (Resolves(rows[i], refs) || Skipped(facts, rows, i))
  }

  /** The insertion succeeds exactly when no row has reversed bounds, and none brings a new key with a
      chunk or a unit that is not stored. */
  lemma {:induction false} InsertFactsIff(facts: Facts, rows: seq<Row>, refs: Refs)
    ensures InsertFacts(facts, rows, refs).Some? <==> forall i :: 0 <= i < |rows| ==> Insertable(facts, rows, refs, i)
  {
    if rows != [] {
      var init := rows[..|rows| - 1];
      InsertFactsIff(facts, init, refs);
      forall i | 0 <= i < |init| ensures Insertable(facts, init, refs, i) <==> Insertable(facts, rows, refs, i) {
        assert rows[i] == init[i];
      }
      if InsertFacts(facts, init, refs).Some? {
        LastSkippedIff(facts, rows, refs);
        assert InsertFacts(facts, rows, refs).Some? <==> Insertable(facts, rows, refs, |init|);
      } else {
        var i :| 0 <= i < |init| && !Insertable(facts, init, refs, i);
        assert !Insertable(facts, rows, refs, i);
      }
    }
  }

  lemma LastSkippedIff(facts: Facts, rows: seq<Row>, refs: Refs)
    requires rows != [] && InsertFacts(facts, rows[..|rows| - 1], refs).Some?
    ensures Skipped(facts, rows, |rows| - 1) <==>
              rows[|rows| - 1].key in InsertFacts(facts, rows[..|rows| - 1], refs).value
  {
    var init, key := rows[..|rows| - 1], rows[|rows| - 1].key;
    InsertFactsIs(facts, init, refs, key);
    if i :| 0 <= i < |init| && init[i].key == key {
      assert rows[i].key == key;
    }
    if i :| 0 <= i < |init| && rows[i].key == key {
      assert init[i].key == key;
    }
  }

  /** The entity loop: inserts each entity or adopts the row of its slug, and records where the id
      of the row differs. */
  method InsertEntities(entities: Entities, es: seq<Entity>) returns (rows: Entities, remap: map<Id, Id>)
    ensures rows == UpsertAll(entities, es) && remap == Remap(rows, es)
  {
    rows, remap := entities, map[];
    for i := 0 to |es|
      invariant rows == UpsertAll(entities, es[..i])
      invariant remap == Remap(rows, es[..i])
    {
      var e := es[i];
      assert es[..i + 1][..i] == es[..i];
      RemapStable(entities, es[..i], e);
      rows := Upsert(rows, e);
      var actual := rows[e.draft.slug];
      if actual != e.id {
        remap := remap[e.id := actual];
      }
    }
    assert es[..|es|] == es;
  }

  method InsertChunkRows(chunks: map<ChunkKey, Id>, document: Id, version: nat, inserts: seq<ChunkInsert>)
    returns (stored: map<ChunkKey, Id>)
    ensures stored == InsertChunks(chunks, document, version, inserts)
  {
    stored := chunks;
    for i := 0 to |inserts|
      invariant stored == InsertChunks(chunks, document, version, inserts[..i])
    {
      assert inserts[..i + 1][..i] == inserts[..i];
      var key := ChunkKey(document, version, inserts[i].ordinal);
      if key !in stored {
        stored := stored[key := inserts[i].id];
      }
    }
    assert inserts[..|inserts|] == inserts;
  }

  /** The fact loop, which looks ids up in the remapping collected by the entity loop. */
  method InsertFactRows(facts: Facts, document: Id, fs: seq<Fact>, rows: Entities, ghost es: seq<Entity>,
                        remap: map<Id, Id>, refs: Refs) returns (kept: Option<Facts>)
    requires DistinctIds(es) && remap == Remap(rows, es) && AllStored(rows, es)
    ensures kept == InsertFacts(facts, Rows(document, fs, rows, es), refs)
  {
    ghost var all := Rows(document, fs, rows, es);
    var sofar := facts;
    for i := 0 to |fs|
      invariant InsertFacts(facts, all[..i], refs) == Some(sofar)
    {
      assert all[..i + 1][..i] == all[..i];
      var f := fs[i];
      RemapIsStored(rows, es, f.subject);
      RemapIsStored(rows, es, f.parameter);
      var subject := if f.subject in remap then remap[f.subject] else f.subject;
      var parameter := if f.parameter in remap then remap[f.parameter] else f.parameter;
      var key := FactKey(document, subject, parameter, f.hash, f.values);
      assert all[i] == Row(f.id, key, f.chunk, f.si);
      if Reversed(f.si) {
        FailsForGood(facts, all, i + 1, refs);
        return None;
      }
      if key !in sofar {
        if !Resolves(Row(f.id, key, f.chunk, f.si), refs) {
          FailsForGood(facts, all, i + 1, refs);
          return None;
        }
        sofar := sofar[key := f.id];
      }
    }
    assert all[..|fs|] == all;
    return Some(sofar);
  }

  /** The chunk that a fact names, if any, is stored or about to be, and its unit, if any, is known. */
  ghost predicate Fits(units: set<Code>, chunks: map<ChunkKey, Id>, document: Id, version: nat, inserts: seq<ChunkInsert>, f: Fact) {
    && (f.chunk.Some? ==> ChunkStored(chunks, document, version, inserts, f.chunk.value))
    && (f.values.unit.Some? ==> f.values.unit.value in units)
  }

  /** A commit succeeds exactly when the document exists, the bounds of every fact are in order, and
      every fact names no chunk or a stored one and no unit or a known one, or has a key that is stored
      already or that an earlier fact brings. */
  ghost predicate Succeeds(documents: set<Id>, units: set<Code>, entities: Entities, chunks: map<ChunkKey, Id>, facts: Facts,
                           document: Id, version: nat, cmd: Command)
  {
    var rows := Rows(document, cmd.facts, UpsertAll(entities, cmd.newEntities), cmd.newEntities);
    && document in documents
    && forall i :: 0 <= i < |rows| ==>
         !Reversed(cmd.facts[i].si)
         && (Skipped(facts, rows, i) || Fits(units, chunks, document, version, cmd.chunks, cmd.facts[i]))
  }

  class Store {
    var documents: set<Id>
    var units: set<Code>
    var entities: Entities
    var chunks: map<ChunkKey, Id>
    var facts: Facts

    ghost predicate Valid()
      reads this
    {
      UniqueIds(entities) && KeysExist(facts.Keys, entities) && UnitsExist(facts.Keys, units)
    }

    constructor ()
      ensures Valid()
    {
      documents, units, entities, chunks, facts := {}, {}, map[], map[], map[];
    }

    /** One transaction: everything is stored, or nothing changes. */
    method Commit(document: Id, version: nat, cmd: Command, ghost known: set<Id>) returns (ok: bool)
      requires Valid()
      requires Committable(cmd, known, entities.Values)
      modifies this
      ensures Valid() && documents == old(documents) && units == old(units)
      ensures ok <==> Succeeds(documents, units, old(entities), old(chunks), old(facts), document, version, cmd)
      ensures ok ==>
                && entities == UpsertAll(old(entities), cmd.newEntities)
                && chunks == InsertChunks(old(chunks), document, version, cmd.chunks)
                && Some(facts) == InsertFacts(old(facts), Rows(document, cmd.facts, entities, cmd.newEntities), Refs(chunks.Values, units))
      ensures !ok ==> entities == old(entities) && chunks == old(chunks) && facts == old(facts)
    {
      hide InsertFacts, InsertChunks, UpsertAll, Rows;
      if document !in documents {
        return false;
      }
      var rows, remap := InsertEntities(entities, cmd.newEntities);
      UpsertStoresAll(entities, cmd.newEntities);
      var stored := InsertChunkRows(chunks, document, version, cmd.chunks);
      var kept := InsertFactRows(facts, document, cmd.facts, rows, cmd.newEntities, remap, Refs(stored.Values, units));
      SucceedsIff(documents, units, entities, chunks, facts, document, version, cmd);
      if kept.None? {
        return false;
      }
      CommitKeepsReferences(entities, facts, document, cmd, known, Refs(stored.Values, units));
      InsertKeepsUnits(facts, Rows(document, cmd.facts, rows, cmd.newEntities), Refs(stored.Values, units));
      entities, chunks, facts := rows, stored, kept.value;
      return true;
    }
  }

  lemma SucceedsIff(documents: set<Id>, units: set<Code>, entities: Entities, chunks: map<ChunkKey, Id>, facts: Facts,
                    document: Id, version: nat, cmd: Command)
    requires document in documents
    ensures
      var rows := Rows(document, cmd.facts, UpsertAll(entities, cmd.newEntities), cmd.newEntities);
      var refs := Refs(InsertChunks(chunks, document, version, cmd.chunks).Values, units);
      Succeeds(documents, units, entities, chunks, facts, document, version, cmd) <==> InsertFacts(facts, rows, refs).Some?
  {
    var rows := Rows(document, cmd.facts, UpsertAll(entities, cmd.newEntities), cmd.newEntities);
    var refs := Refs(InsertChunks(chunks, document, version, cmd.chunks).Values, units);
    InsertFactsIff(facts, rows, refs);
    forall i | 0 <= i < |rows|
      ensures Insertable(facts, rows, refs, i) <==>
                !Reversed(cmd.facts[i].si)
                && (Skipped(facts, rows, i) || Fits(units, chunks, document, version, cmd.chunks, cmd.facts[i]))
    {
      ResolvesIffFits(units, chunks, document, version, cmd.chunks, cmd.facts[i], rows[i]);
    }
  }

  lemma ResolvesIffFits(units: set<Code>, chunks: map<ChunkKey, Id>, document: Id, version: nat, inserts: seq<ChunkInsert>,
                        f: Fact, r: Row)
    requires r.chunk == f.chunk && r.key.values == f.values
    ensures Resolves(r, Refs(InsertChunks(chunks, document, version, inserts).Values, units)) <==>
              Fits(units, chunks, document, version, inserts, f)
  {
    if f.chunk.Some? {
      ChunkStoredIff(chunks, document, version, inserts, f.chunk.value);
    }
  }

  /** The remapping the loop collects: entities of the command stored under another id. */
  function Remap(rows: Entities, es: seq<Entity>): map<Id, Id> {
    if es == [] then map[]
    else
      var last := es[|es| - 1];
      var earlier := Remap(rows, es[..|es| - 1]);
      if last.draft.slug in rows && rows[last.draft.slug] != last.id then earlier[last.id := rows[last.draft.slug]] else earlier
  }

  /** Later insertions do not move rows, so what was remapped stays remapped the same way. */
  lemma RemapStable(entities: Entities, es: seq<Entity>, e: Entity)
    ensures Remap(Upsert(UpsertAll(entities, es), e), es) == Remap(UpsertAll(entities, es), es)
  {
    UpsertStoresAll(entities, es);
    RemapDepends(UpsertAll(entities, es), Upsert(UpsertAll(entities, es), e), es);
  }

  lemma {:induction false} RemapDepends(rows: Entities, more: Entities, es: seq<Entity>)
    requires AllStored(rows, es)
    requires forall s :: s in rows ==> s in more && rows[s] == more[s]
    ensures Remap(rows, es) == Remap(more, es)
  {
    if es != [] {
      RemapDepends(rows, more, es[..|es| - 1]);
    }
  }

  lemma {:induction false} RemapIsStored(rows: Entities, es: seq<Entity>, id: Id)
    requires DistinctIds(es) && AllStored(rows, es)
    ensures Stored(rows, es, id) == if id in Remap(rows, es) then Remap(rows, es)[id] else id
    ensures id in Remap(rows, es) ==> exists i :: 0 <= i < |es| && es[i].id == id
  {
    if es != [] {
      var init, last := es[..|es| - 1], es[|es| - 1];
      RemapIsStored(rows, init, id);
      if id in Remap(rows, init) {
        var i :| 0 <= i < |init| && init[i].id == id;
        assert es[i].id == id && es[|es| - 1] == last;
      } else if id == last.id {
        assert es[|es| - 1].id == id;
      }
    }
  }

  lemma {:induction false} FailsForGood(facts: Facts, rows: seq<Row>, n: nat, refs: Refs)
    requires n <= |rows| && InsertFacts(facts, rows[..n], refs).None?
    ensures InsertFacts(facts, rows, refs).None?
  {
    if n < |rows| {
      assert rows[..|rows| - 1][..n] == rows[..n];
      FailsForGood(facts, rows[..|rows| - 1], n, refs);
    } else {
      assert rows[..n] == rows;
    }
  }

  lemma OldIdKept(entities: Entities, es: seq<Entity>, id: Id)
    requires id in entities.Values
    ensures id in UpsertAll(entities, es).Values
  {
    var s :| s in entities && entities[s] == id;
    OldRowKept(entities, es, s);
  }

  /** An id that is known or new is stored as the id of a row. */
  lemma StoredExists(entities: Entities, es: seq<Entity>, id: Id)
    requires DistinctIds(es) && (id in entities.Values || id in Ids(es))
    ensures Stored(UpsertAll(entities, es), es, id) in UpsertAll(entities, es).Values
  {
    var rows := UpsertAll(entities, es);
    if id in Ids(es) {
      var i :| 0 <= i < |es| && es[i].id == id;
      UpsertStoresAll(entities, es);
      StoredNew(rows, es, i);
      assert rows[es[i].draft.slug] in rows.Values;
    } else {
      StoredOld(rows, es, id);
      OldIdKept(entities, es, id);
    }
  }

  ghost predicate KeysExist(facts: set<FactKey>, entities: Entities) {
    forall f :: f in facts ==> f.subject in entities.Values && f.parameter in entities.Values
  }

  /** After a commit every stored fact refers to entities that exist, and ids stay unique. */
  lemma CommitKeepsReferences(entities: Entities, facts: Facts, document: Id, cmd: Command, known: set<Id>, refs: Refs)
    requires UniqueIds(entities) && KeysExist(facts.Keys, entities) && Committable(cmd, known, entities.Values)
    ensures
      var rows := UpsertAll(entities, cmd.newEntities);
      var inserted := InsertFacts(facts, Rows(document, cmd.facts, rows, cmd.newEntities), refs);
      UniqueIds(rows) && (inserted.Some? ==> KeysExist(inserted.value.Keys, rows))
  {
    var es, rows := cmd.newEntities, UpsertAll(entities, cmd.newEntities);
    UpsertAllUnique(entities, es);
    var all := Rows(document, cmd.facts, rows, es);
    var inserted := InsertFacts(facts, all, refs);
    if inserted.Some? {
      forall key | key in inserted.value ensures key.subject in rows.Values && key.parameter in rows.Values {
        InsertFactsIs(facts, all, refs, key);
        if key in facts {
          OldIdKept(entities, es, key.subject);
          OldIdKept(entities, es, key.parameter);
        } else {
          var i :| 0 <= i < |all| && all[i].key == key;
          StoredExists(entities, es, cmd.facts[i].subject);
          StoredExists(entities, es, cmd.facts[i].parameter);
        }
      }
    }
  }

  ghost predicate UnitsExist(facts: set<FactKey>, units: set<Code>) {
    forall f :: f in facts && f.values.unit.Some? ==> f.values.unit.value in units
  }

  /** Every stored fact has a unit of the unit table, or none. */
  lemma InsertKeepsUnits(facts: Facts, rows: seq<Row>, refs: Refs)
    requires UnitsExist(facts.Keys, refs.units) && InsertFacts(facts, rows, refs).Some?
    ensures UnitsExist(InsertFacts(facts, rows, refs).value.Keys, refs.units)
  {
    InsertFactsIff(facts, rows, refs);
    forall key | key in InsertFacts(facts, rows, refs).value && key.values.unit.Some?
      ensures key.values.unit.value in refs.units
    {
      InsertFactsIs(facts, rows, refs, key);
      if key !in facts {
        var i :| 0 <= i < |rows| && rows[i].key == key && !Skipped(facts, rows, i);
        assert Insertable(facts, rows, refs, i);
      }
    }
  }

  // ----- what the event announces -------------------------------------------

  function Itself<T>(x: T): T { x }

  /** Adds an element unless it was seen. */
  method AddOnce<T(==)>(list: seq<T>, seen: set<T>, x: T, ghost offered: seq<T>) returns (more: seq<T>, seenMore: set<T>)
    requires list == Firsts(offered, Itself<T>) && seen == Keys(offered, Itself<T>)
    ensures more == Firsts(offered + [x], Itself<T>) && seenMore == Keys(offered + [x], Itself<T>)
  {
    FirstsSnoc(offered, x, Itself<T>);
    KeysSnoc(offered, x, Itself<T>);
    if x in seen {
      assert seen + {x} == seen;
      return list, seen;
    }
    return list + [x], seen + {x};
  }

  function IdList(es: seq<Entity>): seq<Id> {
    if es == [] then [] else IdList(es[..|es| - 1]) + [es[|es| - 1].id]
  }

  /** The subject and the parameter of every fact, in turn. */
  function EndList(fs: seq<Fact>): seq<Id> {
    if fs == [] then [] else EndList(fs[..|fs| - 1]) + [fs[|fs| - 1].subject, fs[|fs| - 1].parameter]
  }

  /** The ids the command mentions, new entities first, each at its first place only. */
  method EntityIds(cmd: Command) returns (ids: seq<Id>)
    ensures ids == Firsts(IdList(cmd.newEntities) + EndList(cmd.facts), Itself<Id>)
  {
    var seen: set<Id> := {};
    ids := [];
    for i := 0 to |cmd.newEntities|
      invariant ids == Firsts(IdList(cmd.newEntities[..i]), Itself<Id>)
      invariant seen == Keys(IdList(cmd.newEntities[..i]), Itself<Id>)
    {
      assert cmd.newEntities[..i + 1][..i] == cmd.newEntities[..i];
      ids, seen := AddOnce(ids, seen, cmd.newEntities[i].id, IdList(cmd.newEntities[..i]));
    }
    assert cmd.newEntities[..|cmd.newEntities|] == cmd.newEntities;
    ids := AddEnds(ids, seen, cmd.facts, IdList(cmd.newEntities));
  }

  /** The second loop: both ends of every fact. */
  method AddEnds(list: seq<Id>, known: set<Id>, fs: seq<Fact>, ghost offered: seq<Id>) returns (ids: seq<Id>)
    requires list == Firsts(offered, Itself<Id>) && known == Keys(offered, Itself<Id>)
    ensures ids == Firsts(offered + EndList(fs), Itself<Id>)
  {
    var seen := known;
    ids := list;
    assert offered + EndList([]) == offered;
    for i := 0 to |fs|
      invariant ids == Firsts(offered + EndList(fs[..i]), Itself<Id>)
      invariant seen == Keys(offered + EndList(fs[..i]), Itself<Id>)
    {
      ghost var before := offered + EndList(fs[..i]);
      ids, seen := AddOnce(ids, seen, fs[i].subject, before);
      ids, seen := AddOnce(ids, seen, fs[i].parameter, before + [fs[i].subject]);
      EndListStep(offered, fs, i);
    }
    assert fs[..|fs|] == fs;
  }

  lemma EndListStep(offered: seq<Id>, fs: seq<Fact>, i: nat)
    requires i < |fs|
    ensures offered + EndList(fs[..i + 1]) == offered + EndList(fs[..i]) + [fs[i].subject] + [fs[i].parameter]
  {
    assert fs[..i + 1][..i] == fs[..i];
  }

  datatype ClusterKey = ClusterKey(subject: Id, parameter: Id, hash: Hash)

  function ClusterOf(f: Fact): ClusterKey {
    ClusterKey(f.subject, f.parameter, f.hash)
  }

  function ClusterList(fs: seq<Fact>): seq<ClusterKey> {
    if fs == [] then [] else ClusterList(fs[..|fs| - 1]) + [ClusterOf(fs[|fs| - 1])]
  }

  /** The cluster keys of the facts, each at its first place only. */
  method ClusterKeys(facts: seq<Fact>) returns (keys: seq<ClusterKey>)
    ensures keys == Firsts(ClusterList(facts), Itself<ClusterKey>)
  {
    var seen: set<ClusterKey> := {};
    keys := [];
    for i := 0 to |facts|
      invariant keys == Firsts(ClusterList(facts[..i]), Itself<ClusterKey>)
      invariant seen == Keys(ClusterList(facts[..i]), Itself<ClusterKey>)
    {
      assert facts[..i + 1][..i] == facts[..i];
      keys, seen := AddOnce(keys, seen, ClusterOf(facts[i]), ClusterList(facts[..i]));
    }
    assert facts[..|facts|] == facts;
  }

  /** The lists before repetitions are dropped: the new entities in order; the ends of the facts in order,
      the subject before the parameter; the clusters of the facts in order. */
  lemma {:induction false} ListsInOrder(es: seq<Entity>, fs: seq<Fact>, i: nat)
    ensures |IdList(es)| == |es| && |EndList(fs)| == 2 * |fs| && |ClusterList(fs)| == |fs|
    ensures i < |es| ==> IdList(es)[i] == es[i].id
    ensures i < |fs| ==> EndList(fs)[2 * i] == fs[i].subject && EndList(fs)[2 * i + 1] == fs[i].parameter
    ensures i < |fs| ==> ClusterList(fs)[i] == ClusterKey(fs[i].subject, fs[i].parameter, fs[i].hash)
    decreases |es| + |fs|
  {
    if es != [] {
      ListsInOrder(es[..|es| - 1], fs, i);
    } else if fs != [] {
      ListsInOrder(es, fs[..|fs| - 1], i);
    }
  }

  /** A list without repetitions that holds exactly the elements of a set. */
  ghost predicate Lists<T(!new)>(list: seq<T>, elements: set<T>) {
    && (forall i, j :: 0 <= i < j < |list| ==> list[i] != list[j])
    && (forall x :: x in list <==> x in elements)
  }

  lemma FirstsLists<T(!new)>(s: seq<T>)
    ensures Lists(Firsts(s, Itself<T>), set x | x in s)
  {
    var kept := Firsts(s, Itself<T>);
    FirstsKeys(s, Itself<T>);
    forall i, j | 0 <= i < j < |kept| ensures kept[i] != kept[j] {
      assert Itself(kept[i]) != Itself(kept[j]);
    }
    assert forall x :: x in kept <==> x in Keys(kept, Itself<T>);
    assert forall x :: x in s <==> x in Keys(s, Itself<T>);
  }

  function Ends(fs: seq<Fact>): set<Id> {
    (set f | f in fs :: f.subject) + (set f | f in fs :: f.parameter)
  }

  function Mentioned(cmd: Command): set<Id> {
    Ids(cmd.newEntities) + Ends(cmd.facts)
  }

  /** The announced ids are those of all new entities and of both ends of all facts, each once. */
  lemma AnnouncedIdsAre(cmd: Command)
    ensures Lists(Firsts(IdList(cmd.newEntities) + EndList(cmd.facts), Itself<Id>), Mentioned(cmd))
  {
    FirstsLists(IdList(cmd.newEntities) + EndList(cmd.facts));
    IdListIs(cmd.newEntities);
    EndListIs(cmd.facts);
  }

  lemma {:induction false} IdListIs(es: seq<Entity>)
    ensures forall x :: x in IdList(es) <==> x in Ids(es)
  {
    if es != [] {
      var init, last := es[..|es| - 1], es[|es| - 1];
      IdListIs(init);
      assert es == init + [last];
      IdsAppend(init, last);
    }
  }

  lemma {:induction false} EndListIs(fs: seq<Fact>)
    ensures forall x :: x in EndList(fs) <==> x in Ends(fs)
  {
    if fs != [] {
      var init, last := fs[..|fs| - 1], fs[|fs| - 1];
      EndListIs(init);
      assert fs == init + [last];
      assert forall f :: f in fs <==> f in init || f == last;
      assert Ends(fs) == Ends(init) + {last.subject, last.parameter};
    }
  }

  /** Every fact has its cluster key announced, each once. */
  lemma {:induction false} AnnouncedKeysAre(fs: seq<Fact>)
    ensures Lists(Firsts(ClusterList(fs), Itself<ClusterKey>), set f | f in fs :: ClusterOf(f))
  {
    FirstsLists(ClusterList(fs));
    ClusterListIs(fs);
  }

  lemma {:induction false} ClusterListIs(fs: seq<Fact>)
    ensures forall x :: x in ClusterList(fs) <==> x in set f | f in fs :: ClusterOf(f)
  {
    if fs != [] {
      var init, last := fs[..|fs| - 1], fs[|fs| - 1];
      ClusterListIs(init);
      assert fs == init + [last];
      assert forall f :: f in fs <==> f in init || f == last;
    }
  }

  /** A new entity meets its slug taken: by a row, or by an earlier new entity. */
  ghost predicate SlugTaken(entities: Entities, es: seq<Entity>, i: nat)
    requires i < |es|
  {
    es[i].draft.slug in entities || exists j :: 0 <= j < i && es[j].draft.slug == es[i].draft.slug
  }

  /** The id belongs to a new entity that meets its slug taken. */
  ghost predicate Displaced(entities: Entities, es: seq<Entity>, id: Id) {
    exists i :: 0 <= i < |es| && es[i].id == id && SlugTaken(entities, es, i)
  }

  lemma {:induction false} FirstKeepsSlug(entities: Entities, es: seq<Entity>, i: nat)
    requires i < |es| && !SlugTaken(entities, es, i)
    ensures es[i].draft.slug in UpsertAll(entities, es) && UpsertAll(entities, es)[es[i].draft.slug] == es[i].id
  {
    var init := es[..|es| - 1];
    assert forall j :: 0 <= j < |init| ==> es[j] == init[j];
    if i < |init| {
      FirstKeepsSlug(entities, init, i);
    } else {
      FreeSlug(entities, init, es[i].draft.slug);
    }
  }

  /** The first new entity with a slug that no row has. */
  lemma {:induction false} FirstOfSlug(entities: Entities, es: seq<Entity>, i: nat) returns (j: nat)
    requires i < |es| && es[i].draft.slug !in entities
    ensures j <= i && es[j].draft.slug == es[i].draft.slug && !SlugTaken(entities, es, j)
    ensures SlugTaken(entities, es, i) ==> j < i
  {
    if k :| 0 <= k < i && es[k].draft.slug == es[i].draft.slug {
      j := FirstOfSlug(entities, es, k);
    } else {
      j := i;
    }
  }

  /** An id is stored as itself unless it belongs to a displaced entity. */
  lemma StoredAsItselfIff(entities: Entities, es: seq<Entity>, id: Id)
    requires DistinctIds(es) && Fresh(es, entities.Values)
    ensures Stored(UpsertAll(entities, es), es, id) == id <==> !Displaced(entities, es, id)
  {
    var rows := UpsertAll(entities, es);
    if i :| 0 <= i < |es| && es[i].id == id {
      UpsertStoresAll(entities, es);
      StoredNew(rows, es, i);
      assert Displaced(entities, es, id) <==> SlugTaken(entities, es, i);
      if es[i].draft.slug in entities {
        OldRowKept(entities, es, es[i].draft.slug);
      } else {
        var j := FirstOfSlug(entities, es, i);
        FirstKeepsSlug(entities, es, j);
      }
    } else {
      StoredOld(rows, es, id);
    }
  }

  lemma {:induction false} FreeSlug(entities: Entities, es: seq<Entity>, s: Slug)
    requires s !in entities && forall i :: 0 <= i < |es| ==> es[i].draft.slug != s
    ensures s !in UpsertAll(entities, es)
  {
    if es != [] {
      FreeSlug(entities, es[..|es| - 1], s);
    }
  }

  /** A new id that has a row at all has the row of its own slug. */
  lemma RowOfNew(entities: Entities, es: seq<Entity>, i: nat)
    requires i < |es| && DistinctIds(es) && Fresh(es, entities.Values)
    requires es[i].id in UpsertAll(entities, es).Values
    ensures es[i].draft.slug in UpsertAll(entities, es) && UpsertAll(entities, es)[es[i].draft.slug] == es[i].id
  {
    var rows := UpsertAll(entities, es);
    var s :| s in rows && rows[s] == es[i].id;
    if s in entities {
      OldRowKept(entities, es, s);
      assert false;
    } else {
      var j := RowOrigin(entities, es, s);
      assert j == i;
    }
  }

  lemma EndsMentioned(fs: seq<Fact>, ids: set<Id>)
    requires EndsAmong(fs, ids)
    ensures Ends(fs) <= ids
  {
    forall f | f in fs ensures f.subject in ids && f.parameter in ids {
      var k :| 0 <= k < |fs| && fs[k] == f;
    }
  }

  /** No new entity meets its slug taken. */
  ghost predicate FreshSlugs(entities: Entities, es: seq<Entity>) {
    forall i :: 0 <= i < |es| ==> !SlugTaken(entities, es, i)
  }

  /** A new entity has a row of its own unless its slug was taken. */
  lemma OwnRowIff(entities: Entities, es: seq<Entity>, i: nat)
    requires i < |es| && DistinctIds(es) && Fresh(es, entities.Values)
    ensures es[i].id in UpsertAll(entities, es).Values <==> !SlugTaken(entities, es, i)
  {
    if es[i].id in UpsertAll(entities, es).Values {
      OwnIdIsStored(entities, es, es[i].id);
      StoredAsItselfIff(entities, es, es[i].id);
    }
    if !SlugTaken(entities, es, i) {
      FirstKeepsSlug(entities, es, i);
    }
  }

  /** The event is written before the transaction and announces the ids of the command, not the ids
      stored. They all exist afterwards exactly when no new entity met a slug already taken. */
  lemma AnnouncedIdsExistIff(entities: Entities, cmd: Command, known: set<Id>)
    requires UniqueIds(entities) && Committable(cmd, known, entities.Values)
    ensures Mentioned(cmd) <= UpsertAll(entities, cmd.newEntities).Values <==> FreshSlugs(entities, cmd.newEntities)
  {
    var es, rows := cmd.newEntities, UpsertAll(entities, cmd.newEntities);
    forall i | 0 <= i < |es| ensures es[i].id in rows.Values <==> !SlugTaken(entities, es, i) {
      OwnRowIff(entities, es, i);
    }
    if Mentioned(cmd) <= rows.Values {
      assert forall i :: 0 <= i < |es| ==> es[i].id in Mentioned(cmd);
    }
    if FreshSlugs(entities, es) {
      forall id | id in known + Ids(es) ensures id in rows.Values {
        if id in known {
          OldIdKept(entities, es, id);
        }
      }
      EndsMentioned(cmd.facts, known + Ids(es));
    }
  }

  /** The announced cluster key of a fact is the one it is stored under. */
  ghost predicate KeepsEnds(entities: Entities, es: seq<Entity>, f: Fact) {
    !Displaced(entities, es, f.subject) && !Displaced(entities, es, f.parameter)
  }

  /** Some stored fact belongs to the cluster. */
  ghost predicate HasCluster(facts: Facts, c: ClusterKey) {
    exists key :: key in facts && ClusterKey(key.subject, key.parameter, key.hash) == c
  }

  /** The cluster keys are announced before ids are remapped as well. After a successful commit every
      announced cluster has a stored fact exactly when no fact has an end whose slug was taken. */
  lemma AnnouncedClustersExistIff(entities: Entities, facts: Facts, document: Id, cmd: Command, known: set<Id>, refs: Refs)
    requires UniqueIds(entities) && KeysExist(facts.Keys, entities) && Committable(cmd, known, entities.Values)
    requires InsertFacts(facts, Rows(document, cmd.facts, UpsertAll(entities, cmd.newEntities), cmd.newEntities), refs).Some?
    ensures
      var rows := UpsertAll(entities, cmd.newEntities);
      var stored := InsertFacts(facts, Rows(document, cmd.facts, rows, cmd.newEntities), refs).value;
      (forall k :: 0 <= k < |cmd.facts| ==> HasCluster(stored, ClusterOf(cmd.facts[k]))) <==>
        forall k :: 0 <= k < |cmd.facts| ==> KeepsEnds(entities, cmd.newEntities, cmd.facts[k])
  {
    var es, rows := cmd.newEntities, UpsertAll(entities, cmd.newEntities);
    var all := Rows(document, cmd.facts, rows, es);
    var stored := InsertFacts(facts, all, refs).value;
    CommitKeepsReferences(entities, facts, document, cmd, known, refs);
    forall k | 0 <= k < |cmd.facts|
      ensures HasCluster(stored, ClusterOf(cmd.facts[k])) <==> KeepsEnds(entities, es, cmd.facts[k])
    {
      var f := cmd.facts[k];
      StoredAsItselfIff(entities, es, f.subject);
      StoredAsItselfIff(entities, es, f.parameter);
      if HasCluster(stored, ClusterOf(f)) {
        OwnIdIsStored(entities, es, f.subject);
        OwnIdIsStored(entities, es, f.parameter);
      }
      if KeepsEnds(entities, es, f) {
        InsertFactsIs(facts, all, refs, all[k].key);
        assert all[k].key in stored;
      }
    }
  }

  /** An id that names a row stands for itself. */
  lemma OwnIdIsStored(entities: Entities, es: seq<Entity>, id: Id)
    requires DistinctIds(es) && Fresh(es, entities.Values) && id in UpsertAll(entities, es).Values
    ensures Stored(UpsertAll(entities, es), es, id) == id
  {
    if i :| 0 <= i < |es| && es[i].id == id {
      UpsertStoresAll(entities, es);
      StoredNew(UpsertAll(entities, es), es, i);
      RowOfNew(entities, es, i);
    } else {
      StoredOld(UpsertAll(entities, es), es, id);
    }
  }

  /** The announced fact ids all exist after a successful commit exactly when no fact was skipped. */
  lemma AnnouncedFactsExistIff(facts: Facts, rows: seq<Row>, refs: Refs)
    requires InsertFacts(facts, rows, refs).Some?
    requires forall i :: 0 <= i < |rows| ==> rows[i].id !in facts.Values
    requires forall i, j :: 0 <= i < j < |rows| ==> rows[i].id != rows[j].id
    ensures
      var stored := InsertFacts(facts, rows, refs).value;
      (forall i :: 0 <= i < |rows| ==> rows[i].id in stored.Values) <==>
        forall i :: 0 <= i < |rows| ==> !Skipped(facts, rows, i)
  {
    var stored := InsertFacts(facts, rows, refs).value;
    forall i | 0 <= i < |rows| ensures rows[i].id in stored.Values <==> !Skipped(facts, rows, i) {
      if rows[i].id in stored.Values {
        var key :| key in stored && stored[key] == rows[i].id;
        InsertFactsIs(facts, rows, refs, key);
        if key in facts {
          assert false;
        }
        var j :| 0 <= j < |rows| && rows[j].key == key && rows[j].id == stored[key] && !Skipped(facts, rows, j);
        assert j == i;
      }
      if !Skipped(facts, rows, i) {
        var key := rows[i].key;
        InsertFactsIs(facts, rows, refs, key);
        var j :| 0 <= j < |rows| && rows[j].key == key && rows[j].id == stored[key] && !Skipped(facts, rows, j);
        assert j == i;
        assert stored[key] in stored.Values;
      }
    }
  }

  // ----- slugs of entities that resolution skips ----------------------------

  /** One end of a fact is a new entity that carries the slug. */
  ghost predicate Carries(es: seq<Entity>, id: Id, slug: Slug) {
    exists i :: 0 <= i < |es| && es[i].id == id && es[i].draft.slug == slug
  }

  /** The row of a slug is adopted whatever its status. An entity that resolution leaves out, such as
      a merged one, is named by a fact of the commit exactly when the fact refers to a draft that
      slugifies to its slug. */
  lemma MergedEntityReturnsIff(entities: Entities, document: Id, cmd: Command, known: set<Id>, slug: Slug, k: nat)
    requires UniqueIds(entities) && Committable(cmd, known, entities.Values)
    requires slug in entities && entities[slug] !in known && k < |cmd.facts|
    ensures
      var key := Rows(document, cmd.facts, UpsertAll(entities, cmd.newEntities), cmd.newEntities)[k].key;
      && (key.subject == entities[slug] <==> Carries(cmd.newEntities, cmd.facts[k].subject, slug))
      && (key.parameter == entities[slug] <==> Carries(cmd.newEntities, cmd.facts[k].parameter, slug))
  {
    StoredUnderIff(entities, cmd.newEntities, known, slug, cmd.facts[k].subject);
    StoredUnderIff(entities, cmd.newEntities, known, slug, cmd.facts[k].parameter);
  }

  lemma StoredUnderIff(entities: Entities, es: seq<Entity>, known: set<Id>, slug: Slug, id: Id)
    requires UniqueIds(entities) && DistinctIds(es) && Fresh(es, entities.Values)
    requires slug in entities && entities[slug] !in known && id in known + Ids(es)
    ensures Stored(UpsertAll(entities, es), es, id) == entities[slug] <==> Carries(es, id, slug)
  {
    var rows := UpsertAll(entities, es);
    OldRowKept(entities, es, slug);
    if id in Ids(es) {
      var i :| 0 <= i < |es| && es[i].id == id;
      UpsertStoresAll(entities, es);
      UpsertAllUnique(entities, es);
      StoredNew(rows, es, i);
      assert forall j :: 0 <= j < |es| && es[j].id == id ==> j == i;
    } else {
      StoredOld(rows, es, id);
    }
  }

  // ----- committing again ---------------------------------------------------

  /** A stored version with one chunk row, and a command that extracts it again: the same ordinal
      under a new id, and one fact on it. */
  lemma NewFactOnOldChunkFails(documents: set<Id>, units: set<Code>, entities: Entities, facts: Facts, document: Id,
                               version: nat, oldChunk: Id, newChunk: Id, f: Fact)
    requires oldChunk != newChunk && f.chunk == Some(newChunk)
    requires KeyOf(document, f, entities, []) !in facts
    ensures
      var chunks := map[ChunkKey(document, version, 0) := oldChunk];
      !Succeeds(documents, units, entities, chunks, facts, document, version, Command([], [ChunkInsert(newChunk, 0)], [f]))
  {
    var cmd, chunks := Command([], [ChunkInsert(newChunk, 0)], [f]), map[ChunkKey(document, version, 0) := oldChunk];
    var rows := Rows(document, cmd.facts, UpsertAll(entities, []), []);
    assert UpsertAll(entities, []) == entities && rows[0].key == KeyOf(document, f, entities, []);
    assert !Skipped(facts, rows, 0);
    assert !ChunkStored(chunks, document, version, cmd.chunks, newChunk);
    assert cmd.facts[0] == f;
  }

  /** On a new ordinal the same fact goes in, exactly when its bounds are in order and its unit, if it
      has one, is known, or the key is stored. */
  lemma NewFactOnNewChunkSucceedsIff(documents: set<Id>, units: set<Code>, entities: Entities, facts: Facts, document: Id,
                                     version: nat, oldChunk: Id, newChunk: Id, f: Fact)
    requires document in documents && f.chunk == Some(newChunk)
    ensures
      var chunks := map[ChunkKey(document, version, 0) := oldChunk];
      Succeeds(documents, units, entities, chunks, facts, document, version, Command([], [ChunkInsert(newChunk, 1)], [f])) <==>
        && !Reversed(f.si)
        && (f.values.unit.None? || f.values.unit.value in units || KeyOf(document, f, entities, []) in facts)
  {
    var cmd, chunks := Command([], [ChunkInsert(newChunk, 1)], [f]), map[ChunkKey(document, version, 0) := oldChunk];
    var rows := Rows(document, cmd.facts, UpsertAll(entities, []), []);
    assert UpsertAll(entities, []) == entities && rows[0].key == KeyOf(document, f, entities, []);
    assert Skipped(facts, rows, 0) <==> KeyOf(document, f, entities, []) in facts;
    assert cmd.chunks[0].id == newChunk && NewPlace(chunks, document, version, cmd.chunks, 0);
    assert ChunkStored(chunks, document, version, cmd.chunks, newChunk);
    assert cmd.facts[0] == f;
  }

  /** While the unit table is empty, as the migrations leave it, a new fact with a unit fails whatever
      else the command holds. */
  lemma EmptyUnitTableFails(documents: set<Id>, entities: Entities, chunks: map<ChunkKey, Id>, facts: Facts,
                            document: Id, version: nat, cmd: Command, i: nat)
    requires i < |cmd.facts| && cmd.facts[i].values.unit.Some?
    requires !Skipped(facts, Rows(document, cmd.facts, UpsertAll(entities, cmd.newEntities), cmd.newEntities), i)
    ensures !Succeeds(documents, {}, entities, chunks, facts, document, version, cmd)
  {
    assert cmd.facts[i].values.unit.value !in {};
  }
}
