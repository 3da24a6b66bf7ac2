/** The page-level state of the script and the loops that drive it: the ban
    map and its stored copy, the index of comments by author, and the page's
    comments. `indexOne`, the ban button's handler (extension.ts:81-95), the
    info block's handler, the arrival of an author's stats and the initial pass
    over the page are methods of `BlackList`; each loop is proved against a fold
    over the comments it visits. */
module Overlay {
  import opened Wrappers
  import opened Authors
  import opened Stats
  import opened BanStore
  import opened Comments

  /** Every handle in the index names a comment on a page of `n` comments. */
  predicate HandlesIn(index: Index, n: nat) {
    forall a, j :: a in index && 0 <= j < |index[a].comments| ==> index[a].comments[j] < n
  }

  /** Every entry has its stats requested: the slot is set when the entry is
      made. */
  predicate Requested(index: Index) {
    forall a :: a in index ==> !index[a].slot.Unfetched?
  }

  /** The author under whom `indexOne` files a comment: one whose author
      resolves and whose text is not empty. */
  function IndexedAuthor(m: Markup): (a: Option<AuthorId>)
    ensures a.Some? <==> AuthorOf(m).Some? && m.textBody.Some? && m.textBody.value != []
    ensures a.Some? ==> a == AuthorOf(m)
  {
    if AuthorOf(m).Some? && m.textBody.Some? && m.textBody.value != [] then AuthorOf(m) else None
  }

  /** Append a comment to an author's entry, creating the entry if needed, and
      request the author's stats when they have not been requested yet. */
  function Push(index: Index, a: AuthorId, h: nat): Index {
    var e := if a in index then index[a] else Entry([], Unfetched);
    index[a := Entry(e.comments + [h], if e.slot.Unfetched? then Pending else e.slot)]
  }

  /** Pushing files the comment last under its author, makes sure the
      author's stats are requested, and leaves the other entries alone. */
  lemma PushFiles(index: Index, a: AuthorId, h: nat)
    ensures var r := Push(index, a, h);
      && r.Keys == index.Keys + {a}
      && r[a].comments == (if a in index then index[a].comments else []) + [h]
      && r[a].slot == (if SlotOf(index, a).Unfetched? then Pending else SlotOf(index, a))
      && (forall b :: b in index && b != a ==> r[b] == index[b])
  {
  }

  /** `indexOne` on the index: a comment without a resolvable author is
      skipped; reading the text of a comment without a text element throws;
      a comment with empty text is skipped; any other is filed under its
      author. */
  function Indexed(index: Index, m: Markup, h: nat): (r: (Index, Outcome))
    ensures r.1.Fail? <==> AuthorOf(m).Some? && m.textBody.None?
    ensures r.1.Fail? ==> r.1.error == MissingTextElement
    ensures IndexedAuthor(m).None? ==> r.0 == index
    ensures IndexedAuthor(m).Some? ==> r.0 == Push(index, IndexedAuthor(m).value, h)
  {
    match AuthorOf(m)
    case None => (index, Pass)
    case Some(a) =>
      if m.textBody.None? then (index, Fail(MissingTextElement))
      else if m.textBody.value == [] then (index, Pass)
      else (Push(index, a, h), Pass)
  }

  /** Indexing keeps the handles on the page and the stats requested. */
  lemma IndexedKeepsShape(index: Index, m: Markup, h: nat, n: nat)
    requires HandlesIn(index, n) && Requested(index) && h < n
    ensures HandlesIn(Indexed(index, m, h).0, n) && Requested(Indexed(index, m, h).0)
  {
    var r := Indexed(index, m, h).0;
    if IndexedAuthor(m).Some? {
      var a := IndexedAuthor(m).value;
      forall b, j | b in r && 0 <= j < |r[b].comments| ensures r[b].comments[j] < n {
        if b == a && a in index && j < |index[a].comments| {
          assert r[b].comments[j] == index[a].comments[j];
        }
      }
    }
  }

  // ---------------------------------------------------------------------
  // Loops over an author's comments

  /** What a loop does to each comment: render it (`index[a].forEach(addBanButtonAndInfo)`),
      or render it and apply `hideContentIfNeeded` (the ban button's loop). */
  datatype Step = Render | RenderAndHide

  function StepOf(c: Comment, step: Step, flags: Flags, index: Index): (r: (Comment, Outcome))
    ensures Consistent(c) ==> Consistent(r.0)
  {
    match step
    case Render =>
      var (m, o) := Rendered(c.content, flags, index);
      PlaceholderHasNoAuthor();
      (c.(content := m), o)
    case RenderAndHide => Refreshed(c, flags, index)
  }

  predicate InRange(hs: seq<nat>, n: nat) {
    forall j :: 0 <= j < |hs| ==> hs[j] < n
  }

  predicate Distinct(hs: seq<nat>) {
    forall i, j :: 0 <= i < j < |hs| ==> hs[i] != hs[j]
  }

  /** `hs.forEach(step)`: each comment in turn, until one of them throws. */
  function ApplyEach(cs: seq<Comment>, hs: seq<nat>, step: Step, flags: Flags, index: Index): (r: (seq<Comment>, Outcome))
    requires InRange(hs, |cs|)
    ensures |r.0| == |cs|
    decreases |hs|
  {
    if hs == [] then (cs, Pass)
    else
      var (done, o) := ApplyEach(cs, hs[..|hs| - 1], step, flags, index);
      if o.Fail? then (done, o)
      else
        var h := hs[|hs| - 1];
        var (c, o') := StepOf(done[h], step, flags, index);
        (done[h := c], o')
  }

  /** Comments the loop does not visit are not changed. */
  lemma {:induction false} ApplyEachOutside(cs: seq<Comment>, hs: seq<nat>, step: Step, flags: Flags, index: Index, k: nat)
    requires InRange(hs, |cs|) && k < |cs|
    requires forall j :: 0 <= j < |hs| ==> hs[j] != k
    ensures ApplyEach(cs, hs, step, flags, index).0[k] == cs[k]
    decreases |hs|
  {
    if hs != [] {
      ApplyEachOutside(cs, hs[..|hs| - 1], step, flags, index, k);
    }
  }

  /** Once a prefix of the loop has thrown, the rest of it does nothing. */
  lemma {:induction false} ApplyEachStops(cs: seq<Comment>, hs: seq<nat>, i: nat, step: Step, flags: Flags, index: Index)
    requires InRange(hs, |cs|) && i <= |hs|
    requires ApplyEach(cs, hs[..i], step, flags, index).1.Fail?
    ensures ApplyEach(cs, hs, step, flags, index) == ApplyEach(cs, hs[..i], step, flags, index)
    decreases |hs| - i
  {
    if i < |hs| {
      assert hs[..|hs| - 1][..i] == hs[..i];
      ApplyEachStops(cs, hs[..|hs| - 1], i, step, flags, index);
    } else {
      assert hs[..i] == hs;
    }
  }

  /** A loop over distinct comments that completes has applied the step to
      each of them exactly once, to the comment as it was before the loop. */
  lemma {:induction false} ApplyEachAt(cs: seq<Comment>, hs: seq<nat>, step: Step, flags: Flags, index: Index, j: nat)
    requires InRange(hs, |cs|) && Distinct(hs) && j < |hs|
    requires ApplyEach(cs, hs, step, flags, index).1 == Pass
    ensures ApplyEach(cs, hs, step, flags, index).0[hs[j]] == StepOf(cs[hs[j]], step, flags, index).0
    decreases |hs|
  {
    var init := hs[..|hs| - 1];
    var last := hs[|hs| - 1];
    assert Distinct(init);
    if ApplyEach(cs, init, step, flags, index).1.Fail? {
      assert false;
    }
    if j < |hs| - 1 {
      assert init[j] == hs[j];
      ApplyEachAt(cs, init, step, flags, index, j);
    } else {
      assert forall i :: 0 <= i < |init| ==> init[i] != last;
      ApplyEachOutside(cs, init, step, flags, index, last);
    }
  }

  /** A comment the loop can render without a throw: its author, and the
      author of the content it keeps while hidden, have index entries. */
  predicate Resolvable(c: Comment, index: Index) {
    && (AuthorOf(c.content).Some? ==> AuthorOf(c.content).value in index)
    && (c.saved.Some? && AuthorOf(c.saved.value).Some? ==> AuthorOf(c.saved.value).value in index)
  }

  lemma StepPasses(c: Comment, step: Step, flags: Flags, index: Index)
    requires Resolvable(c, index)
    ensures StepOf(c, step, flags, index).1 == Pass
  {
  }

  /** A loop over distinct comments that all resolve completes. */
  lemma {:induction false} ApplyEachPasses(cs: seq<Comment>, hs: seq<nat>, step: Step, flags: Flags, index: Index)
    requires InRange(hs, |cs|) && Distinct(hs)
    requires forall j :: 0 <= j < |hs| ==> Resolvable(cs[hs[j]], index)
    ensures ApplyEach(cs, hs, step, flags, index).1 == Pass
    decreases |hs|
  {
    if hs != [] {
      var init := hs[..|hs| - 1];
      var last := hs[|hs| - 1];
      assert Distinct(init);
      ApplyEachPasses(cs, init, step, flags, index);
      assert forall i :: 0 <= i < |init| ==> init[i] != last;
      ApplyEachOutside(cs, init, step, flags, index, last);
      StepPasses(cs[last], step, flags, index);
    }
  }

  /** Banning an author: after the ban button's loop every shown comment of
      the author that has a text element is hidden, keeping its freshly
      rendered content. */
  lemma {:induction false} BanHidesAll(cs: seq<Comment>, hs: seq<nat>, flags: Flags, index: Index, a: AuthorId, j: nat)
    requires InRange(hs, |cs|) && Distinct(hs) && j < |hs|
    requires forall i :: 0 <= i < |hs| ==> Resolvable(cs[hs[i]], index)
    requires IsBanned(flags, a)
    requires var c := cs[hs[j]]; c.saved.None? && c.content.textBody.Some? && AuthorOf(c.content) == Some(a)
    ensures var c := cs[hs[j]];
      ApplyEach(cs, hs, RenderAndHide, flags, index) ==
        (ApplyEach(cs, hs, RenderAndHide, flags, index).0, Pass)
      && ApplyEach(cs, hs, RenderAndHide, flags, index).0[hs[j]] ==
        Hide(c.(content := Rendered(c.content, flags, index).0))
  {
    ApplyEachPasses(cs, hs, RenderAndHide, flags, index);
    ApplyEachAt(cs, hs, RenderAndHide, flags, index, j);
    RefreshHidesBanned(cs[hs[j]], flags, index);
  }

  /** Unbanning an author: after the ban button's loop every hidden comment
      of the author shows its saved content again, rendered with the new
      status. */
  lemma {:induction false} UnbanRevealsAll(cs: seq<Comment>, hs: seq<nat>, flags: Flags, index: Index, a: AuthorId, j: nat)
    requires InRange(hs, |cs|) && Distinct(hs) && j < |hs|
    requires forall i :: 0 <= i < |hs| ==> Resolvable(cs[hs[i]], index)
    requires !IsBanned(flags, a)
    requires var c := cs[hs[j]]; Consistent(c) && c.saved.Some? && AuthorOf(c.saved.value) == Some(a)
    ensures var c := cs[hs[j]];
      ApplyEach(cs, hs, RenderAndHide, flags, index).1 == Pass
      && ApplyEach(cs, hs, RenderAndHide, flags, index).0[hs[j]] ==
        Comment(Rendered(c.saved.value, flags, index).0, None, Inert)
  {
    ApplyEachPasses(cs, hs, RenderAndHide, flags, index);
    ApplyEachAt(cs, hs, RenderAndHide, flags, index, j);
    RefreshRevealsUnbanned(cs[hs[j]], flags, index);
  }

  // ---------------------------------------------------------------------
  // The initial pass over the page

  /** Indexing, rendering and hiding one comment of the initial pass, each
      step ending the pass when it throws. */
  function ActivateOne(index: Index, cs: seq<Comment>, flags: Flags, h: nat): (r: (Index, seq<Comment>, Outcome))
    requires h < |cs|
    ensures |r.1| == |cs|
    ensures r.0 == Indexed(index, cs[h].content, h).0
    ensures forall k :: 0 <= k < |cs| && k != h ==> r.1[k] == cs[k]
  {
    var (i1, o1) := Indexed(index, cs[h].content, h);
    if o1.Fail? then (i1, cs, o1)
    else
      var (c, o2) := Refreshed(cs[h], flags, i1);
      (i1, cs[h := c], o2)
  }

  /** The initial pass over the first `n` comments of the page, in document
      order. */
  function Activated(index: Index, cs: seq<Comment>, flags: Flags, n: nat): (r: (Index, seq<Comment>, Outcome))
    requires n <= |cs|
    ensures |r.1| == |cs|
    decreases n, 0
  {
    if n == 0 then (index, cs, Pass) else Turn(index, cs, flags, n - 1)
  }

  /** The pass up to and including the comment at `h`: the pass before it,
      then that comment's turn unless the pass has already thrown. */
  function Turn(index: Index, cs: seq<Comment>, flags: Flags, h: nat): (r: (Index, seq<Comment>, Outcome))
    requires h < |cs|
    ensures |r.1| == |cs|
    decreases h, 1
  {
    var (i1, cs1, o) := Activated(index, cs, flags, h);
    if o.Fail? then (i1, cs1, o) else ActivateOne(i1, cs1, flags, h)
  }

  /** The pass does not touch comments it has not reached. */
  lemma {:induction false} ActivatedOutside(index: Index, cs: seq<Comment>, flags: Flags, n: nat, k: nat)
    requires n <= k < |cs|
    ensures Activated(index, cs, flags, n).1[k] == cs[k]
  {
    if n > 0 {
      ActivatedOutside(index, cs, flags, n - 1, k);
    }
  }

  /** The comments among the first `n` that the pass files under `a`, in
      document order. */
  function Listed(cs: seq<Comment>, a: AuthorId, n: nat): (hs: seq<nat>)
    requires n <= |cs|
    ensures forall j :: 0 <= j < |hs| ==> hs[j] < n && IndexedAuthor(cs[hs[j]].content) == Some(a)
    ensures forall i, j :: 0 <= i < j < |hs| ==> hs[i] < hs[j]
    ensures forall h :: 0 <= h < n && IndexedAuthor(cs[h].content) == Some(a) ==> h in hs
  {
    if n == 0 then []
    else Listed(cs, a, n - 1) + (if IndexedAuthor(cs[n - 1].content) == Some(a) then [n - 1] else [])
  }

  /** A freshly loaded page: nothing hidden, no handler installed, and every
      comment whose author resolves has non-empty text. */
  predicate Fresh(cs: seq<Comment>) {
    forall k :: 0 <= k < |cs| ==>
      && cs[k].saved.None? && cs[k].handler == NoHandler
      && (AuthorOf(cs[k].content).Some? ==> IndexedAuthor(cs[k].content).Some?)
  }

  /** The index `indexOne` builds from the first `n` comments as they are
      on the page, starting from an empty one. */
  function IndexedUpTo(cs: seq<Comment>, n: nat): Index
    requires n <= |cs|
  {
    if n == 0 then map[] else Indexed(IndexedUpTo(cs, n - 1), cs[n - 1].content, n - 1).0
  }

  /** That index files each author's comments in document order, and every
      author in it has stats requested. */
  lemma {:induction false} IndexedUpToListsInOrder(cs: seq<Comment>, n: nat)
    requires n <= |cs|
    ensures var index := IndexedUpTo(cs, n);
      && (forall a :: a in index <==> Listed(cs, a, n) != [])
      && (forall a :: a in index ==> index[a] == Entry(Listed(cs, a, n), Pending))
  {
    if n > 0 {
      IndexedUpToListsInOrder(cs, n - 1);
      var before := IndexedUpTo(cs, n - 1);
      var index := IndexedUpTo(cs, n);
      var h := n - 1;
      match IndexedAuthor(cs[h].content)
      case None =>
        assert index == before;
        assert forall a :: Listed(cs, a, n) == Listed(cs, a, n - 1);
      case Some(b) =>
        PushFiles(before, b, h);
        assert index == Push(before, b, h);
        forall a | a in index ensures index[a] == Entry(Listed(cs, a, n), Pending) {
          if a == b && b !in before {
            assert Listed(cs, a, n - 1) == [];
          }
        }
    }
  }

  /** On a fresh page no turn of the initial pass throws, and the index it
      builds is the one `indexOne` builds from the page as it was loaded. */
  lemma {:induction false} FreshPagePasses(cs: seq<Comment>, flags: Flags, n: nat)
    requires n <= |cs| && Fresh(cs)
    ensures Activated(map[], cs, flags, n).2 == Pass
    ensures Activated(map[], cs, flags, n).0 == IndexedUpTo(cs, n)
  {
    if n > 0 {
      var h := n - 1;
      FreshPagePasses(cs, flags, h);
      var (i1, cs1, o) := Activated(map[], cs, flags, h);
      ActivatedOutside(map[], cs, flags, h, h);
      ActivatedStep(map[], cs, flags, h);
      var c := cs[h];
      assert cs1[h] == c;
      var (i2, o1) := Indexed(i1, c.content, h);
      assert o1 == Pass;
      assert AuthorOf(c.content).Some? ==> AuthorOf(c.content).value in i2;
      assert Refreshed(c, flags, i2).1 == Pass;
    }
  }

  /** On a fresh page the initial pass completes; the index then lists each
      author's comments in document order, and every author's stats are
      requested and still pending. */
  lemma ActivationIndexesInOrder(cs: seq<Comment>, flags: Flags, n: nat)
    requires n <= |cs| && Fresh(cs)
    ensures var r := Activated(map[], cs, flags, n);
      && r.2 == Pass
      && (forall a :: a in r.0 <==> Listed(cs, a, n) != [])
      && (forall a :: a in r.0 ==> r.0[a] == Entry(Listed(cs, a, n), Pending))
  {
    FreshPagePasses(cs, flags, n);
    IndexedUpToListsInOrder(cs, n);
  }

  /** On a fresh page the pass leaves at each comment it reached what that
      comment's own turn made of it: the comment as loaded, rendered and
      then hidden or not, against the index as it stood after filing it.
      Later turns do not touch it. */
  lemma {:induction false} ActivatedAt(cs: seq<Comment>, flags: Flags, n: nat, h: nat)
    requires h < n <= |cs| && Fresh(cs)
    ensures Activated(map[], cs, flags, n).1[h] == Refreshed(cs[h], flags, IndexedUpTo(cs, h + 1)).0
    decreases n
  {
    if n == h + 1 {
      OwnTurn(cs, flags, h);
    } else {
      FreshPagePasses(cs, flags, n - 1);
      ActivatedStep(map[], cs, flags, n - 1);
      ActivatedAt(cs, flags, n - 1, h);
    }
  }

  /** The turn of the comment at `h` on a fresh page: the pass before it has
      not touched it, and filing it gives the index `IndexedUpTo(cs, h + 1)`. */
  lemma OwnTurn(cs: seq<Comment>, flags: Flags, h: nat)
    requires h < |cs| && Fresh(cs)
    ensures Activated(map[], cs, flags, h + 1).1[h] == Refreshed(cs[h], flags, IndexedUpTo(cs, h + 1)).0
  {
    FreshPagePasses(cs, flags, h);
    ActivatedStep(map[], cs, flags, h);
    ActivatedOutside(map[], cs, flags, h, h);
    var before := Activated(map[], cs, flags, h);
    assert Indexed(before.0, before.1[h].content, h).0 == IndexedUpTo(cs, h + 1);
  }

  /** After the initial pass over a fresh page, every comment it reached
      whose author resolves carries that author's ban button; a banned
      author's comment is hidden behind the placeholder with that rendered
      content saved, and any other comment shows its rendered content. */
  lemma ActivationShows(cs: seq<Comment>, flags: Flags, n: nat, h: nat)
    requires h < n <= |cs| && Fresh(cs) && AuthorOf(cs[h].content).Some?
    ensures var a := AuthorOf(cs[h].content).value;
      var m := Rendered(cs[h].content, flags, IndexedUpTo(cs, h + 1)).0;
      && ButtonFor(IsBanned(flags, a)) in m.header
      && (IsBanned(flags, a) ==> Activated(map[], cs, flags, n).1[h] == Hide(cs[h].(content := m)))
      && (!IsBanned(flags, a) ==> Activated(map[], cs, flags, n).1[h] == cs[h].(content := m))
  {
    var c := cs[h];
    var index := IndexedUpTo(cs, h + 1);
    ActivatedAt(cs, flags, n, h);
    RenderedHeader(c.content, flags, index);
    assert AuthorOf(c.content).value in index;
    if IsBanned(flags, AuthorOf(c.content).value) {
      RefreshHidesBanned(c, flags, index);
    } else {
      NotBannedUntouched(c.(content := Rendered(c.content, flags, index).0), flags, index);
    }
  }

  // ---------------------------------------------------------------------
  // Stats slots

  /** How far an author's stats have come: requested, stored, expanded. */
  function SlotRank(s: StatsSlot): nat {
    match s
    case Unfetched => 0
    case Pending => 1
    case Resolved(stats) => if stats.expanded then 3 else 2
  }

  /** A slot only ever moves forward, and an expanded info block stays
      expanded. */
  predicate Advances(index: Index, index': Index) {
    forall a :: a in index ==> a in index' && SlotRank(index[a].slot) <= SlotRank(index'[a].slot)
  }

  /** Storing a later slot for an author keeps the handles and moves the
      index forward. */
  lemma SlotUpdateKeepsShape(index: Index, a: AuthorId, slot: StatsSlot, n: nat)
    requires HandlesIn(index, n) && Requested(index) && a in index
    requires SlotRank(index[a].slot) <= SlotRank(slot) && !slot.Unfetched?
    ensures var index' := index[a := index[a].(slot := slot)];
      HandlesIn(index', n) && Requested(index') && Advances(index, index')
  {
    var index' := index[a := index[a].(slot := slot)];
    assert forall b :: b in index' ==> index'[b].comments == index[b].comments;
  }

  /** The comment shows the summary info block of its author's stored
      stats, whose handler is live. It may do so after another comment of
      the same author has expanded the shared record, because only the
      clicked comment is rendered again. */
  predicate ShowsSummary(index: Index, m: Markup) {
    && AuthorOf(m).Some?
    && SlotOf(index, AuthorOf(m).value).Resolved?
    && InfoBlock(Short(Summary(SlotOf(index, AuthorOf(m).value).stats))) in m.header
  }

  /** The comment shows a ban button to click: a render appended one, which
      happens only for a comment whose author resolves. A render that
      throws at the index lookup has appended the button already. */
  predicate ShowsBanButton(m: Markup) {
    AuthorOf(m).Some? && Count(m.header, ButtonKind) > 0
  }

  /** The page's comments as the page serves them: nothing hidden and no
      handler installed. */
  function Served(page: seq<Markup>): (cs: seq<Comment>)
    ensures |cs| == |page|
    ensures forall k :: 0 <= k < |page| ==> cs[k] == Comment(page[k], None, NoHandler)
  {
    seq(|page|, k requires 0 <= k < |page| => Comment(page[k], None, NoHandler))
  }

  class BlackList {
    /** `YEAR`: the current year, read once from the clock. */
    const year: int
    /** The in-memory ban map. */
    var storage: Flags
    /** The document kept in localStorage. */
    var persisted: StoredDocument
    var index: Index
    /** The page's comments, in document order. */
    var comments: seq<Comment>

    ghost predicate Valid()
      reads this
    {
      && Load(persisted) == Success(storage)
      && HandlesIn(index, |comments|)
      && Requested(index)
      && forall k :: 0 <= k < |comments| ==> Consistent(comments[k])
    }

    /** Reading the ban map and the page: the stored map is loaded, the index
        is empty and every comment is as the page served it. */
    constructor (doc: StoredDocument, page: seq<Markup>, year: int)
      requires Load(doc).Success?
      ensures Valid()
      ensures this.year == year && storage == Load(doc).value && persisted == doc
      ensures index == map[]
      ensures comments == Served(page)
    {
      this.year := year;
      storage := Load(doc).value;
      persisted := doc;
      index := map[];
      comments := Served(page);
    }

    /** `updateStorage`: set the flag and store the whole map again. */
    method UpdateStorage(key: AuthorId, value: bool)
      requires Valid()
      modifies this`storage, this`persisted
      ensures Valid()
      ensures storage == Updated(old(storage), key, value)
      ensures persisted == Save(storage)
    {
      storage := storage[key := value];
      persisted := Save(storage);
      SaveLoadRoundTrip(storage);
    }

    /** `indexOne` on the comment at `h`; `requested` says whether it starts
        the author's `fetchStats`. */
    method IndexOne(h: nat) returns (outcome: Outcome, requested: bool)
      requires Valid() && h < |comments|
      modifies this`index
      ensures Valid() && Advances(old(index), index)
      ensures (index, outcome) == Indexed(old(index), comments[h].content, h)
      ensures requested <==> IndexedAuthor(comments[h].content).Some? && IndexedAuthor(comments[h].content).value !in old(index)
    {
      IndexedKeepsShape(index, comments[h].content, h, |comments|);
      var author := IndexedAuthor(comments[h].content);
      requested := author.Some? && author.value !in index;
      index, outcome := Indexed(index, comments[h].content, h).0, Indexed(index, comments[h].content, h).1;
    }

    /** `addBanButtonAndInfo` on the comment at `h`. */
    method AddBanButtonAndInfo(h: nat) returns (outcome: Outcome)
      requires Valid() && h < |comments|
      modifies this`comments
      ensures Valid()
      ensures comments == old(comments)[h := old(comments)[h].(content := Rendered(old(comments)[h].content, storage, index).0)]
      ensures outcome == Rendered(old(comments)[h].content, storage, index).1
      ensures |comments| == |old(comments)| && (comments[h], outcome) == StepOf(old(comments)[h], Render, storage, index)
    {
      var (m, o) := Rendered(comments[h].content, storage, index);
      comments := comments[h := comments[h].(content := m)];
      outcome := o;
    }

    /** `hideContentIfNeeded` on the comment at `h`. */
    method HideContentIfNeeded(h: nat) returns (outcome: Outcome)
      requires Valid() && h < |comments|
      modifies this`comments
      ensures Valid()
      ensures |comments| == |old(comments)|
      ensures (comments[h], outcome) == Comments.HideContentIfNeeded(old(comments)[h], storage, index)
      ensures comments == old(comments)[h := comments[h]]
    {
      var (c, o) := Comments.HideContentIfNeeded(comments[h], storage, index);
      comments := comments[h := c];
      outcome := o;
    }

    /** One turn of the ban button's loop: render the comment at `h`, then
        apply `hideContentIfNeeded` unless the render threw. */
    method Refresh(h: nat) returns (outcome: Outcome)
      requires Valid() && h < |comments|
      modifies this`comments
      ensures Valid() && |comments| == |old(comments)|
      ensures (comments[h], outcome) == Refreshed(old(comments)[h], storage, index)
      ensures comments == old(comments)[h := comments[h]]
    {
      outcome := AddBanButtonAndInfo(h);
      if outcome.Pass? {
        outcome := HideContentIfNeeded(h);
      }
    }

    /** A click on the comment at `h` itself. */
    method ClickComment(h: nat) returns (outcome: Outcome)
      requires Valid() && h < |comments|
      modifies this`comments
      ensures Valid()
      ensures |comments| == |old(comments)|
      ensures (comments[h], outcome) == Click(old(comments)[h], storage, index)
      ensures comments == old(comments)[h := comments[h]]
    {
      var (c, o) := Click(comments[h], storage, index);
      comments := comments[h := c];
      outcome := o;
    }

    /** The ban button of the comment at `h`, with the user's answer to the
        confirmation: toggle the author's flag, then render and re-check
        every comment of the author, stopping at a throw; an author without
        an index entry makes the lookup throw after the flag is stored. */
    method ClickBanButton(h: nat, confirmed: bool) returns (outcome: Outcome)
      requires Valid() && h < |comments|
      requires ShowsBanButton(comments[h].content)
      modifies this`storage, this`persisted, this`comments
      ensures Valid()
      ensures var a := AuthorOf(old(comments)[h].content).value;
        && storage == (if confirmed then Toggled(old(storage), a) else old(storage))
        && (!confirmed ==> comments == old(comments) && persisted == old(persisted) && outcome == Pass)
        && (confirmed && a !in index ==> comments == old(comments) && outcome == Fail(NotIndexed(a)))
        && (confirmed && a in index ==>
              (comments, outcome) == ApplyEach(old(comments), index[a].comments, RenderAndHide, storage, index))
    {
      if !confirmed {
        return Pass;
      }
      var a := AuthorOf(comments[h].content).value;
      UpdateStorage(a, !IsBanned(storage, a));
      if a !in index {
        return Fail(NotIndexed(a));
      }
      outcome := RefreshEach(index[a].comments);
    }

    /** `hs.forEach(addBanButtonAndInfo)`, ending at the first throw. */
    method RenderEach(hs: seq<nat>) returns (outcome: Outcome)
      requires Valid() && InRange(hs, |comments|)
      modifies this`comments
      ensures Valid()
      ensures (comments, outcome) == ApplyEach(old(comments), hs, Render, storage, index)
    {
      var i := 0;
      outcome := Pass;
      while i < |hs| && outcome.Pass?
        invariant Valid() && 0 <= i <= |hs| && |comments| == |old(comments)|
        invariant (comments, outcome) == ApplyEach(old(comments), hs[..i], Render, storage, index)
      {
        assert hs[..i + 1][..i] == hs[..i] && hs[..i + 1][i] == hs[i];
        outcome := AddBanButtonAndInfo(hs[i]);
        i := i + 1;
      }
      if i < |hs| {
        ApplyEachStops(old(comments), hs, i, Render, storage, index);
      } else {
        assert hs[..i] == hs;
      }
    }

    /** The ban button's loop: render each comment and apply
        `hideContentIfNeeded` to it, ending at the first throw. */
    method RefreshEach(hs: seq<nat>) returns (outcome: Outcome)
      requires Valid() && InRange(hs, |comments|)
      modifies this`comments
      ensures Valid()
      ensures (comments, outcome) == ApplyEach(old(comments), hs, RenderAndHide, storage, index)
    {
      var i := 0;
      outcome := Pass;
      while i < |hs| && outcome.Pass?
        invariant Valid() && 0 <= i <= |hs| && |comments| == |old(comments)|
        invariant (comments, outcome) == ApplyEach(old(comments), hs[..i], RenderAndHide, storage, index)
      {
        assert hs[..i + 1][..i] == hs[..i] && hs[..i + 1][i] == hs[i];
        outcome := Refresh(hs[i]);
        i := i + 1;
      }
      if i < |hs| {
        ApplyEachStops(old(comments), hs, i, RenderAndHide, storage, index);
      } else {
        assert hs[..i] == hs;
      }
    }

    /** The summary info block's handler: mark the author's stats expanded
        and render the comment at `h` again, which now shows the long form.
        The click then bubbles up to the comment, whose own handler is
        `ClickComment`. */
    method ClickInfoBlock(h: nat)
      requires Valid() && h < |comments|
      requires ShowsSummary(index, comments[h].content)
      modifies this`index, this`comments
      ensures Valid() && Advances(old(index), index)
      ensures var a := AuthorOf(old(comments)[h].content).value;
        var s := SlotOf(old(index), a).stats;
        && index == old(index)[a := old(index)[a].(slot := Resolved(s.(expanded := true)))]
        && comments == old(comments)[h := old(comments)[h].(content := Rendered(old(comments)[h].content, storage, index).0)]
        && InfoBlock(Long(s.registration, s.activities)) in comments[h].content.header
    {
      var a := AuthorOf(comments[h].content).value;
      var s := index[a].slot.stats;
      var expanded := s.(expanded := true);
      SlotUpdateKeepsShape(index, a, Resolved(expanded), |comments|);
      index := index[a := index[a].(slot := Resolved(expanded))];
      assert SlotOf(index, a) == Resolved(expanded);
      assert InfoFor(expanded) == InfoBlock(Long(s.registration, s.activities));
      RenderedHeader(comments[h].content, storage, index);
      var o := AddBanButtonAndInfo(h);
    }

    /** `fetchStats` once the author's page has arrived: parse it, store the
        record in the author's slot and render each of the author's comments,
        stopping at a throw. A lookup that fails on the page throws before
        anything is stored. */
    method ReceiveStats(a: AuthorId, statusText: Option<string>, menu: Option<seq<MenuNode>>) returns (parsed: Result<Stats, ParseError>, outcome: Outcome)
      requires Valid() && a in index && index[a].slot == Pending
      modifies this`index, this`comments
      ensures Valid() && Advances(old(index), index)
      ensures parsed == ParseProfile(statusText, menu, year)
      ensures parsed.Failure? ==> index == old(index) && comments == old(comments) && outcome == Pass
      ensures parsed.Success? ==>
        && index == old(index)[a := old(index)[a].(slot := Resolved(parsed.value))]
        && (comments, outcome) == ApplyEach(old(comments), index[a].comments, Render, storage, index)
    {
      parsed := ParseProfile(statusText, menu, year);
      if parsed.Failure? {
        return parsed, Pass;
      }
      outcome := StoreStats(a, parsed.value);
    }

    /** The end of `fetchStats`: store the record in the author's slot and
        render each of the author's comments, ending at the first throw. */
    method StoreStats(a: AuthorId, stats: Stats) returns (outcome: Outcome)
      requires Valid() && a in index && index[a].slot == Pending
      modifies this`index, this`comments
      ensures Valid() && Advances(old(index), index)
      ensures index == old(index)[a := old(index)[a].(slot := Resolved(stats))]
      ensures (comments, outcome) == ApplyEach(old(comments), index[a].comments, Render, storage, index)
    {
      SlotUpdateKeepsShape(index, a, Resolved(stats), |comments|);
      index := index[a := index[a].(slot := Resolved(stats))];
      outcome := RenderEach(index[a].comments);
    }

    /** One turn of the initial pass: `indexOne`, `addBanButtonAndInfo` and
        `hideContentIfNeeded` on the comment at `h`, ending at a throw. The
        turns before it, from `start` on the page `before`, have all passed. */
    method ActivateAt(h: nat, ghost start: Index, ghost before: seq<Comment>) returns (outcome: Outcome, requested: bool)
      requires Valid() && h < |before|
      requires Activated(start, before, storage, h) == (index, comments, Pass)
      modifies this`index, this`comments
      ensures Valid() && Advances(old(index), index)
      ensures (index, comments, outcome) == Activated(start, before, storage, h + 1)
      ensures requested <==> IndexedAuthor(old(comments)[h].content).Some? && IndexedAuthor(old(comments)[h].content).value !in old(index)
      ensures index.Keys == old(index).Keys + if requested then {IndexedAuthor(old(comments)[h].content).value} else {}
    {
      ActivatedStep(start, before, storage, h);
      outcome, requested := IndexOne(h);
      if outcome.Pass? {
        outcome := Refresh(h);
      }
    }

    /** The initial pass: each comment of the page in document order is
        indexed, rendered and re-checked, until one of the steps throws. */
    method Activate() returns (outcome: Outcome)
      requires Valid()
      modifies this`index, this`comments
      ensures Valid()
      ensures (index, comments, outcome) == Activated(old(index), old(comments), storage, |old(comments)|)
    {
      ghost var before, start := comments, index;
      var i := 0;
      outcome := Pass;
      while i < |comments| && outcome.Pass?
        invariant Valid() && i <= |before| == |comments|
        invariant (index, comments, outcome) == Activated(start, before, storage, i)
      {
        var requested;
        outcome, requested := ActivateAt(i, start, before);
        i := i + 1;
      }
      if i < |before| {
        ActivatedStops(start, before, storage, i, |before|);
      }
    }
  }

  /** One more comment of the pass, while it has not thrown. */
  lemma ActivatedStep(index: Index, cs: seq<Comment>, flags: Flags, n: nat)
    requires n < |cs| && Activated(index, cs, flags, n).2.Pass?
    ensures var r := Activated(index, cs, flags, n);
      Activated(index, cs, flags, n + 1) == ActivateOne(r.0, r.1, flags, n)
  {
  }

  /** Once the pass has thrown, the rest of the page is not processed. */
  lemma {:induction false} ActivatedStops(index: Index, cs: seq<Comment>, flags: Flags, i: nat, n: nat)
    requires i <= n <= |cs|
    requires Activated(index, cs, flags, i).2.Fail?
    ensures Activated(index, cs, flags, n) == Activated(index, cs, flags, i)
    decreases n - i
  {
    if i < n {
      ActivatedStops(index, cs, flags, i, n - 1);
    }
  }

  /** `getStorage` followed by the initial pass: a stored document that does
      not parse stops the script before it touches the page; otherwise the
      pass runs over the page as served, from an empty index. */
  method Start(doc: StoredDocument, page: seq<Markup>, year: int) returns (r: Result<BlackList, LoadError>, outcome: Outcome)
    ensures r.Failure? <==> doc.Malformed?
    ensures r.Failure? ==> outcome == Pass
    ensures r.Success? ==> fresh(r.value) && r.value.Valid() && r.value.storage == Load(doc).value
    ensures r.Success? ==>
      (r.value.index, r.value.comments, outcome) == Activated(map[], Served(page), Load(doc).value, |page|)
  {
    var flags := Load(doc);
    if flags.Failure? {
      return Failure(flags.error), Pass;
    }
    var list := new BlackList(doc, page, year);
    outcome := list.Activate();
    return Success(list), outcome;
  }
}
