/**
  The content service of the studio. An edit reads an entry and later puts a revision
  and the whole entry back, one storage call at a time, so edits can overlap.
*/
module ContentService {
  import opened Wrappers
  import opened Ordering

  /** A slug and a locale. */
  datatype Address = Address(slug: string, locale: string)

  type EntryId = string
  type Content = string

  /** Of the lifecycle states only "published" matters here. */
  datatype PageEntry = PageEntry(address: Address, revision: nat, published: bool)

  datatype Store = Store(entries: map<EntryId, PageEntry>, revisions: map<(EntryId, nat), Content>)

  /** An edit between two of its storage calls, with the entry as it was read. */
  datatype Edit =
    | Creating(id: EntryId, entry: PageEntry, content: Content)   // the address was free; the entry is put next
    | Recording(id: EntryId, content: Content)                    // the first revision is put next
    | Sourcing(id: EntryId, entry: PageEntry, version: nat)       // the revision to restore is read next
    | Saving(id: EntryId, entry: PageEntry, content: Content)     // the new revision is put next
    | Storing(id: EntryId, entry: PageEntry)                      // the entry is put next

  /** The store, the edits under way, and the ids drawn so far. */
  datatype Studio = Studio(store: Store, edits: map<nat, Edit>, drawn: set<EntryId>)

  datatype EditEvent =
    | BeginCreate(edit: nat, at: Address, id: EntryId, content: Content, published: bool)
    | BeginSave(edit: nat, id: EntryId, content: Content)
    | BeginRestore(edit: nat, id: EntryId, version: nat)
    | BeginTransition(edit: nat, id: EntryId, published: bool)
    | Continue(edit: nat)
    | Abandon(edit: nat)
    // a delete on the storage underneath the service
    | Erase(id: EntryId)

  const NO_CONTENT := Studio(Store(map[], map[]), map[], {})

  function EntriesAt(store: Store, a: Address): set<EntryId> {
    set id | id in store.entries && store.entries[id].address == a
  }

  /** Public resolution of an address, first half: the first entry by id, if it is published. */
  function Seek(store: Store, a: Address): Option<(EntryId, nat)> {
    var found := EntriesAt(store, a);
    if found == {} then None
    else
      var id := Least(found);
      if store.entries[id].published then Some((id, store.entries[id].revision)) else None
  }

  function WithEntry(store: Store, id: EntryId, entry: PageEntry): Store {
    store.(entries := store.entries[id := entry])
  }

  function WithRevision(store: Store, id: EntryId, revision: nat, content: Content): Store {
    store.(revisions := store.revisions[(id, revision) := content])
  }

  /** The next storage call of an edit. */
  function Advance(s: Studio, n: nat): Studio
    requires n in s.edits
  {
    match s.edits[n]
    case Creating(id, entry, content) =>
      s.(store := WithEntry(s.store, id, entry), edits := s.edits[n := Recording(id, content)])
    case Recording(id, content) => s.(store := WithRevision(s.store, id, 1, content), edits := s.edits - {n})
    case Sourcing(id, entry, version) =>
      if (id, version) in s.store.revisions
      then s.(edits := s.edits[n := Saving(id, entry, s.store.revisions[(id, version)])])
      else s.(edits := s.edits - {n})
    case Saving(id, entry, content) =>
      s.(store := WithRevision(s.store, id, entry.revision + 1, content),
         edits := s.edits[n := Storing(id, entry.(revision := entry.revision + 1))])
    case Storing(id, entry) => s.(store := WithEntry(s.store, id, entry), edits := s.edits - {n})
  }

  /** One step; a refused one changes nothing, and an abandoned edit leaves what it has already put. */
  function EditStep(s: Studio, e: EditEvent): Studio {
    match e
    case BeginCreate(n, at, id, content, published) =>
      // an occupied address is a conflict; ids are random and never repeat
      if n in s.edits || id in s.drawn || EntriesAt(s.store, at) != {} then s
      else s.(edits := s.edits[n := Creating(id, PageEntry(at, 1, published), content)], drawn := s.drawn + {id})
    case BeginSave(n, id, content) =>
      if n in s.edits || id !in s.store.entries then s
      else s.(edits := s.edits[n := Saving(id, s.store.entries[id], content)])
    case BeginRestore(n, id, version) =>
      if n in s.edits || id !in s.store.entries then s
      else s.(edits := s.edits[n := Sourcing(id, s.store.entries[id], version)])
    case BeginTransition(n, id, published) =>
      if n in s.edits || id !in s.store.entries then s
      else s.(edits := s.edits[n := Storing(id, s.store.entries[id].(published := published))])
    case Continue(n) => if n in s.edits then Advance(s, n) else s
    case Abandon(n) => s.(edits := s.edits - {n})
    case Erase(id) =>
      s.(store := Store(s.store.entries - {id}, map k | k in s.store.revisions && k.0 != id :: s.store.revisions[k]))
  }

  // Orderly editing

  predicate Busy(s: Studio, id: EntryId) {
    exists n :: n in s.edits && s.edits[n].id == id
  }

  predicate BeingCreated(s: Studio, at: Address) {
    exists n :: n in s.edits && s.edits[n].Creating? && s.edits[n].entry.address == at
  }

  /** The step begins an edit of an entry, or at an address, that another edit is at work on. */
  predicate Overlaps(s: Studio, e: EditEvent) {
    match e
    case BeginCreate(_, at, _, _, _) => BeingCreated(s, at)
    case BeginSave(_, id, _) => Busy(s, id)
    case BeginRestore(_, id, _) => Busy(s, id)
    case BeginTransition(_, id, _) => Busy(s, id)
    case _ => false
  }

  /** No delete underneath the service, and no two edits of one entry or address at a time. */
  predicate Orderly(s: Studio, e: EditEvent) {
    !e.Erase? && !Overlaps(s, e)
  }

  /** What orderly editing keeps of the store: one entry to an address, revisions from one up. */
  ghost predicate StoreTidy(store: Store, drawn: set<EntryId>) {
    && (forall id :: id in store.entries ==> id in drawn && store.entries[id].revision >= 1)
    && (forall k :: k in store.revisions ==> k.0 in drawn)
    && (forall a, b :: a in store.entries && b in store.entries && a != b ==>
          store.entries[a].address != store.entries[b].address)
  }

  /** What an edit under way can count on. */
  ghost predicate EditTidy(store: Store, drawn: set<EntryId>, edit: Edit) {
    && edit.id in drawn
    && match edit
       case Creating(id, entry, _) =>
         && id !in store.entries && entry.revision == 1
         && (forall k :: k in store.revisions ==> k.0 != id)
         && (forall other :: other in store.entries ==> store.entries[other].address != entry.address)
       case Recording(id, _) => id in store.entries && store.entries[id].revision == 1 && (id, 1) !in store.revisions
       case Sourcing(id, entry, _) => id in store.entries && store.entries[id] == entry
       case Saving(id, entry, _) => id in store.entries && store.entries[id] == entry
       case Storing(id, entry) =>
         && id in store.entries && entry.address == store.entries[id].address
         && entry.revision >= store.entries[id].revision
  }

  ghost predicate Apart(a: Edit, b: Edit) {
    a.id != b.id && (a.Creating? && b.Creating? ==> a.entry.address != b.entry.address)
  }

  ghost predicate Tidy(s: Studio) {
    && StoreTidy(s.store, s.drawn)
    && (forall n :: n in s.edits ==> EditTidy(s.store, s.drawn, s.edits[n]))
    && (forall m, n :: m in s.edits && n in s.edits && m != n ==> Apart(s.edits[m], s.edits[n]))
  }

  /** The content is on record as a revision of the entry that is not newer than its current one. */
  predicate OnRecord(store: Store, id: EntryId, revision: nat, content: Content) {
    && id in store.entries && 1 <= revision <= store.entries[id].revision
    && (id, revision) in store.revisions && store.revisions[(id, revision)] == content
  }

  /** Entries stay where they are and their revisions only count up. */
  ghost predicate Onward(before: Store, after: Store) {
    && (forall id :: id in before.entries ==>
          && id in after.entries && after.entries[id].address == before.entries[id].address
          && after.entries[id].revision >= before.entries[id].revision)
    && (forall id, r, c :: OnRecord(before, id, r, c) ==> OnRecord(after, id, r, c))
  }

  lemma BeginTidy(s: Studio, n: nat, edit: Edit, drawn: set<EntryId>)
    requires Tidy(s) && n !in s.edits && drawn == s.drawn + {edit.id} && EditTidy(s.store, drawn, edit)
    requires forall m :: m in s.edits ==> Apart(s.edits[m], edit) && Apart(edit, s.edits[m])
    ensures Tidy(Studio(s.store, s.edits[n := edit], drawn))
  {
  }

  /** An edit that makes way for its next stage, or ends, leaves the others tidy if it does not touch them. */
  lemma AdvanceTidy(s: Studio, n: nat, store: Store, next: Option<Edit>)
    requires Tidy(s) && n in s.edits && StoreTidy(store, s.drawn)
    requires forall m :: m in s.edits && m != n ==> EditTidy(store, s.drawn, s.edits[m])
    requires next.Some? ==>
      EditTidy(store, s.drawn, next.value) && next.value.id == s.edits[n].id && !next.value.Creating?
    ensures Tidy(Studio(store, if next.Some? then s.edits[n := next.value] else s.edits - {n}, s.drawn))
  {
  }

  /** The storage call of one edit does not disturb another one. */
  lemma OtherEditTidy(s: Studio, n: nat, m: nat)
    requires Tidy(s) && n in s.edits && m in s.edits && m != n
    ensures EditTidy(Advance(s, n).store, s.drawn, s.edits[m])
  {
    assert Apart(s.edits[m], s.edits[n]) && Apart(s.edits[n], s.edits[m]);
    assert EditTidy(s.store, s.drawn, s.edits[m]) && EditTidy(s.store, s.drawn, s.edits[n]);
  }

  lemma AdvanceStoreTidy(s: Studio, n: nat)
    requires Tidy(s) && n in s.edits
    ensures StoreTidy(Advance(s, n).store, s.drawn)
  {
    assert EditTidy(s.store, s.drawn, s.edits[n]);
  }

  lemma AdvanceOnward(s: Studio, n: nat)
    requires Tidy(s) && n in s.edits
    ensures Onward(s.store, Advance(s, n).store)
  {
    assert EditTidy(s.store, s.drawn, s.edits[n]);
  }

  lemma AdvanceKeeps(s: Studio, n: nat)
    requires Tidy(s) && n in s.edits
    ensures Tidy(Advance(s, n)) && Onward(s.store, Advance(s, n).store)
  {
    var t := Advance(s, n);
    AdvanceStoreTidy(s, n);
    AdvanceOnward(s, n);
    forall m | m in s.edits && m != n ensures EditTidy(t.store, s.drawn, s.edits[m]) {
      OtherEditTidy(s, n, m);
    }
    assert EditTidy(s.store, s.drawn, s.edits[n]);
    AdvanceTidy(s, n, t.store, if n in t.edits then Some(t.edits[n]) else None);
  }

  /**
    Orderly editing never changes or drops what is on record as a current or earlier
    revision, and revision numbers only count up.
  */
  lemma EditKeepsRecord(s: Studio, e: EditEvent)
    requires Tidy(s) && Orderly(s, e)
    ensures Tidy(EditStep(s, e)) && Onward(s.store, EditStep(s, e).store)
  {
    match e
    case BeginCreate(n, at, id, content, published) =>
      if EditStep(s, e) != s {
        BeginTidy(s, n, Creating(id, PageEntry(at, 1, published), content), s.drawn + {id});
      }
    case BeginSave(n, id, content) =>
      if EditStep(s, e) != s { BeginTidy(s, n, Saving(id, s.store.entries[id], content), s.drawn); }
    case BeginRestore(n, id, version) =>
      if EditStep(s, e) != s { BeginTidy(s, n, Sourcing(id, s.store.entries[id], version), s.drawn); }
    case BeginTransition(n, id, published) =>
      if EditStep(s, e) != s { BeginTidy(s, n, Storing(id, s.store.entries[id].(published := published)), s.drawn); }
    case Continue(n) => if n in s.edits { AdvanceKeeps(s, n); }
    case Abandon(_) =>
  }

  /** Revision numbers start at one, in any run at all. */
  ghost predicate Numbered(s: Studio) {
    && (forall id :: id in s.store.entries ==> s.store.entries[id].revision >= 1)
    && (forall n :: n in s.edits && !s.edits[n].Recording? ==> s.edits[n].entry.revision >= 1)
  }

  lemma EditKeepsNumbered(s: Studio, e: EditEvent)
    requires Numbered(s)
    ensures Numbered(EditStep(s, e))
  {
  }

  /** For the public the address leads to this revision of this entry: the first by id there, and it is published. */
  ghost predicate Public(store: Store, a: Address, id: EntryId, revision: nat) {
    && id in store.entries && store.entries[id] == PageEntry(a, revision, true)
    && forall other :: other in store.entries && store.entries[other].address == a ==> other == id || Less(id, other)
  }

  /** Resolving an address gives exactly what is public there. */
  lemma SeekExactly(store: Store, a: Address, id: EntryId, revision: nat)
    ensures Seek(store, a) == Some((id, revision)) <==> Public(store, a, id, revision)
  {
    var found := EntriesAt(store, a);
    if Public(store, a, id, revision) {
      assert id in found;
      assert forall other :: other in found ==> other == id || Less(id, other);
      LeastIsUnique(id, Least(found), found);
    }
    if Seek(store, a) == Some((id, revision)) {
      assert id == Least(found) && IsLeast(id, found);
      forall other | other in store.entries && store.entries[other].address == a
        ensures other == id || Less(id, other)
      {
        assert other in found;
      }
    }
  }

  lemma SeekFinds(store: Store, a: Address)
    requires Seek(store, a).Some?
    ensures var (id, revision) := Seek(store, a).value;
      id in store.entries && store.entries[id].address == a && store.entries[id].revision == revision
  {
    assert Least(EntriesAt(store, a)) in EntriesAt(store, a);
  }

  // Histories

  function RunEdits(s: Studio, events: seq<EditEvent>): Studio {
    if events == [] then s else EditStep(RunEdits(s, events[..|events| - 1]), events[|events| - 1])
  }

  /** The studio after the first i steps of a history. */
  function At(h: seq<EditEvent>, i: nat): Studio
    requires i <= |h|
  {
    RunEdits(NO_CONTENT, h[..i])
  }

  ghost predicate OrderlyHistory(h: seq<EditEvent>) {
    forall i :: 0 <= i < |h| ==> Orderly(At(h, i), h[i])
  }

  lemma AtNext(h: seq<EditEvent>, i: nat)
    requires i < |h|
    ensures At(h, i + 1) == EditStep(At(h, i), h[i])
  {
    assert h[..i + 1][..i] == h[..i];
  }

  /** What comes later does not change what was. */
  lemma AtPrefix(h: seq<EditEvent>, more: seq<EditEvent>, i: nat)
    requires i <= |h|
    ensures At(h + more, i) == At(h, i)
  {
    assert (h + more)[..i] == h[..i];
  }

  lemma {:induction false} TidyAt(h: seq<EditEvent>, i: nat)
    requires OrderlyHistory(h) && i <= |h|
    ensures Tidy(At(h, i))
  {
    if i > 0 {
      TidyAt(h, i - 1);
      AtNext(h, i - 1);
      EditKeepsRecord(At(h, i - 1), h[i - 1]);
    }
  }

  lemma OnwardTwice(a: Store, b: Store, c: Store)
    requires Onward(a, b) && Onward(b, c)
    ensures Onward(a, c)
  {
  }

  /** In an orderly history entries stay where they are and revisions only count up, over any stretch. */
  lemma {:induction false} OnwardAt(h: seq<EditEvent>, i: nat, j: nat)
    requires OrderlyHistory(h) && i <= j <= |h|
    ensures Onward(At(h, i).store, At(h, j).store)
  {
    if i < j {
      OnwardAt(h, i, j - 1);
      TidyAt(h, j - 1);
      AtNext(h, j - 1);
      EditKeepsRecord(At(h, j - 1), h[j - 1]);
      OnwardTwice(At(h, i).store, At(h, j - 1).store, At(h, j).store);
    }
  }

  lemma {:induction false} RunEditsAppend(s: Studio, a: seq<EditEvent>, b: seq<EditEvent>)
    ensures RunEdits(s, a + b) == RunEdits(RunEdits(s, a), b)
  {
    if b == [] {
      assert a + b == a;
    } else {
      assert (a + b)[..|a + b| - 1] == a + b[..|b| - 1];
      RunEditsAppend(s, a, b[..|b| - 1]);
    }
  }

  lemma RunEditsCons(s: Studio, e: EditEvent, rest: seq<EditEvent>)
    ensures RunEdits(s, [e] + rest) == RunEdits(EditStep(s, e), rest)
  {
    RunOneEdit(s, e);
    RunEditsAppend(s, [e], rest);
  }

  lemma RunOneEdit(s: Studio, e: EditEvent)
    ensures RunEdits(s, [e]) == EditStep(s, e)
  {
    assert [e][..0] == [];
  }

  lemma RunTwoEdits(s: Studio, x: EditEvent, y: EditEvent)
    ensures RunEdits(s, [x, y]) == EditStep(EditStep(s, x), y)
  {
    assert [x, y][..1] == [x] && [x][..0] == [];
    assert RunEdits(s, [x]) == EditStep(s, x);
  }

  lemma RunThreeEdits(s: Studio, x: EditEvent, y: EditEvent, z: EditEvent)
    ensures RunEdits(s, [x, y, z]) == EditStep(EditStep(EditStep(s, x), y), z)
  {
    assert [x, y, z][..2] == [x, y];
    RunTwoEdits(s, x, y);
  }

  // What each edit does when nothing comes in between

  /** An edit is begun that was not under way. */
  function Begun(s: Studio, n: nat, edit: Edit): Studio {
    s.(edits := s.edits[n := edit])
  }

  lemma StoringEnds(s: Studio, n: nat, id: EntryId, e: PageEntry)
    requires n !in s.edits
    ensures EditStep(Begun(s, n, Storing(id, e)), Continue(n)) == s.(store := WithEntry(s.store, id, e))
  {
    assert s.edits[n := Storing(id, e)] - {n} == s.edits;
  }

  lemma RecordingEnds(s: Studio, n: nat, id: EntryId, content: Content)
    requires n !in s.edits
    ensures EditStep(Begun(s, n, Recording(id, content)), Continue(n)) ==
      s.(store := WithRevision(s.store, id, 1, content))
  {
    assert s.edits[n := Recording(id, content)] - {n} == s.edits;
  }

  lemma SavingGoesOn(s: Studio, n: nat, id: EntryId, e: PageEntry, content: Content)
    ensures EditStep(Begun(s, n, Saving(id, e, content)), Continue(n)) ==
      Begun(s.(store := WithRevision(s.store, id, e.revision + 1, content)), n,
            Storing(id, e.(revision := e.revision + 1)))
  {
  }

  lemma SourcingGoesOn(s: Studio, n: nat, id: EntryId, e: PageEntry, version: nat)
    requires n !in s.edits
    ensures EditStep(Begun(s, n, Sourcing(id, e, version)), Continue(n)) ==
      if (id, version) in s.store.revisions then Begun(s, n, Saving(id, e, s.store.revisions[(id, version)])) else s
  {
    assert s.edits[n := Sourcing(id, e, version)] - {n} == s.edits;
  }

  lemma CreatingGoesOn(s: Studio, n: nat, id: EntryId, e: PageEntry, content: Content)
    ensures EditStep(Begun(s, n, Creating(id, e, content)), Continue(n)) ==
      Begun(s.(store := WithEntry(s.store, id, e)), n, Recording(id, content))
  {
  }

  /** One more revision of the entry, made current. */
  function Revised(s: Studio, id: EntryId, e: PageEntry, content: Content): Studio {
    s.(store := Store(s.store.entries[id := PageEntry(e.address, e.revision + 1, e.published)],
                      s.store.revisions[(id, e.revision + 1) := content]))
  }

  lemma SavingEnds(s: Studio, n: nat, id: EntryId, e: PageEntry, content: Content)
    requires n !in s.edits
    ensures EditStep(EditStep(Begun(s, n, Saving(id, e, content)), Continue(n)), Continue(n)) ==
      Revised(s, id, e, content)
  {
    SavingGoesOn(s, n, id, e, content);
    StoringEnds(s.(store := WithRevision(s.store, id, e.revision + 1, content)), n, id,
                e.(revision := e.revision + 1));
  }

  /** Saving adds one revision with the given content and makes it current; nothing else changes. */
  lemma SaveEffect(s: Studio, n: nat, id: EntryId, content: Content)
    requires n !in s.edits && id in s.store.entries
    ensures RunEdits(s, [BeginSave(n, id, content), Continue(n), Continue(n)]) ==
      Revised(s, id, s.store.entries[id], content)
  {
    RunThreeEdits(s, BeginSave(n, id, content), Continue(n), Continue(n));
    SavingEnds(s, n, id, s.store.entries[id], content);
  }

  /** Restoring saves the content of the version asked for as a new revision; one not on record changes nothing. */
  lemma RestoreEffect(s: Studio, n: nat, id: EntryId, version: nat)
    requires n !in s.edits && id in s.store.entries
    ensures RunEdits(s, [BeginRestore(n, id, version), Continue(n)] + [Continue(n), Continue(n)]) ==
      if (id, version) !in s.store.revisions then s
      else Revised(s, id, s.store.entries[id], s.store.revisions[(id, version)])
  {
    var e := s.store.entries[id];
    var s2 := EditStep(EditStep(s, BeginRestore(n, id, version)), Continue(n));
    RunEditsAppend(s, [BeginRestore(n, id, version), Continue(n)], [Continue(n), Continue(n)]);
    RunTwoEdits(s, BeginRestore(n, id, version), Continue(n));
    RunTwoEdits(s2, Continue(n), Continue(n));
    SourcingGoesOn(s, n, id, e, version);
    if (id, version) in s.store.revisions {
      SavingEnds(s, n, id, e, s.store.revisions[(id, version)]);
    }
  }

  predicate Occupied(store: Store, at: Address) {
    exists other :: other in store.entries && store.entries[other].address == at
  }

  /** Creating at a free address, under a new id, puts a first revision; an occupied address changes nothing. */
  lemma CreateEffect(s: Studio, n: nat, at: Address, id: EntryId, content: Content, published: bool)
    requires n !in s.edits && id !in s.drawn
    ensures RunEdits(s, [BeginCreate(n, at, id, content, published), Continue(n), Continue(n)]) ==
      if Occupied(s.store, at) then s
      else s.(store := Store(s.store.entries[id := PageEntry(at, 1, published)],
                             s.store.revisions[(id, 1) := content]),
              drawn := s.drawn + {id})
  {
    RunThreeEdits(s, BeginCreate(n, at, id, content, published), Continue(n), Continue(n));
    var e := PageEntry(at, 1, published);
    if other :| other in s.store.entries && s.store.entries[other].address == at {
      assert other in EntriesAt(s.store, at);
    } else {
      var s1 := s.(drawn := s.drawn + {id});
      CreatingGoesOn(s1, n, id, e, content);
      RecordingEnds(s1.(store := WithEntry(s.store, id, e)), n, id, content);
    }
  }

  /** A transition changes whether the entry is published, and nothing else. */
  lemma TransitionEffect(s: Studio, n: nat, id: EntryId, published: bool)
    requires n !in s.edits && id in s.store.entries
    ensures var e := s.store.entries[id];
      RunEdits(s, [BeginTransition(n, id, published), Continue(n)]) ==
      s.(store := s.store.(entries := s.store.entries[id := PageEntry(e.address, e.revision, published)]))
  {
    RunTwoEdits(s, BeginTransition(n, id, published), Continue(n));
    StoringEnds(s, n, id, s.store.entries[id].(published := published));
  }

  /** A save that fails between its two calls leaves a revision that nothing refers to, and the entry as it was. */
  lemma HalfSave(s: Studio, n: nat, id: EntryId, content: Content)
    requires n !in s.edits && id in s.store.entries
    ensures RunEdits(s, [BeginSave(n, id, content), Continue(n), Abandon(n)]) ==
      s.(store := WithRevision(s.store, id, s.store.entries[id].revision + 1, content))
  {
    RunThreeEdits(s, BeginSave(n, id, content), Continue(n), Abandon(n));
    var e := s.store.entries[id];
    SavingGoesOn(s, n, id, e, content);
    assert s.edits[n := Storing(id, e.(revision := e.revision + 1))] - {n} == s.edits;
  }

  /** A create that fails between its two calls leaves an entry without its revision. */
  lemma HalfCreate(s: Studio, n: nat, at: Address, id: EntryId, content: Content, published: bool)
    requires n !in s.edits && id !in s.drawn && !Occupied(s.store, at)
    ensures RunEdits(s, [BeginCreate(n, at, id, content, published), Continue(n), Abandon(n)]) ==
      s.(store := WithEntry(s.store, id, PageEntry(at, 1, published)), drawn := s.drawn + {id})
  {
    RunThreeEdits(s, BeginCreate(n, at, id, content, published), Continue(n), Abandon(n));
    var s1 := s.(drawn := s.drawn + {id});
    assert EntriesAt(s.store, at) == {};
    CreatingGoesOn(s1, n, id, PageEntry(at, 1, published), content);
    assert s.edits[n := Recording(id, content)] - {n} == s.edits;
  }

  // The current revision is on record

  predicate Readable(store: Store, id: EntryId) {
    id in store.entries && (id, store.entries[id].revision) in store.revisions
  }

  /** Whatever is or is about to become current is on record, but for a first revision that a create has not put yet. */
  ghost predicate Backed(s: Studio) {
    && (forall id :: id in s.store.entries ==> s.store.entries[id].revision <= 1 || Readable(s.store, id))
    && (forall n :: n in s.edits && s.edits[n].Creating? ==> s.edits[n].entry.revision <= 1)
    && (forall n :: n in s.edits && s.edits[n].Storing? ==>
          s.edits[n].entry.revision <= 1 || (s.edits[n].id, s.edits[n].entry.revision) in s.store.revisions)
  }

  /** Edits put a revision before the entry that refers to it, in any overlap. */
  lemma EditKeepsBacked(s: Studio, e: EditEvent)
    requires Backed(s) && !e.Erase?
    ensures Backed(EditStep(s, e))
    ensures forall k :: k in s.store.revisions ==> k in EditStep(s, e).store.revisions
  {
    match e
    case Continue(n) => if n in s.edits { AdvanceKeepsBacked(s, n); }
    case _ =>
  }

  lemma AdvanceKeepsBacked(s: Studio, n: nat)
    requires Backed(s) && n in s.edits
    ensures Backed(Advance(s, n))
    ensures forall k :: k in s.store.revisions ==> k in Advance(s, n).store.revisions
  {
  }

  lemma {:induction false} BackedAt(h: seq<EditEvent>, i: nat, j: nat)
    requires OrderlyHistory(h) && i <= j <= |h|
    ensures Backed(At(h, j))
    ensures forall k :: k in At(h, i).store.revisions ==> k in At(h, j).store.revisions
    decreases j
  {
    if j > 0 {
      BackedAt(h, if i < j then i else j - 1, j - 1);
      AtNext(h, j - 1);
      EditKeepsBacked(At(h, j - 1), h[j - 1]);
    }
  }

  /** Main result: in an orderly history, an entry whose current revision is on record stays so through every edit. */
  lemma StaysReadable(h: seq<EditEvent>, i: nat, j: nat, id: EntryId)
    requires OrderlyHistory(h) && i <= j <= |h| && Readable(At(h, i).store, id)
    ensures Readable(At(h, j).store, id)
  {
    BackedAt(h, i, j);
    OnwardAt(h, i, j);
    TidyAt(h, i);
  }
}
