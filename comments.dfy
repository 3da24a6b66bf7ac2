/** One comment on the page and what the script does to it:
    `addBanButtonAndInfo` (the author header's ban button and info block),
    `hideContentIfNeeded` (swapping the content for a placeholder and back) and
    the comment's click handler. A comment's `innerHTML` is represented by the
    parts the script reads and writes: the author link, the text element and
    the children of the author header after the link. */
module Comments {
  import opened Wrappers
  import opened Authors
  import opened Stats
  import opened BanStore

  /** What the info block shows: the compact summary, or, once it has been
      clicked, the registration line followed by the activity elements. */
  datatype InfoView = Short(text: string) | Long(registration: string, activities: seq<Fragment>)

  /** A child of the author header after the author link: the script's ban
      button (its text and its title), the script's info block, or any other
      element of the page. */
  datatype Control = BanButton(icon: string, title: string) | InfoBlock(view: InfoView) | Other(markup: string)

  /** The content of a comment: the `href` of its first author link (None when
      there is no such link), the `innerText` of its first text element (None
      when there is none) and the author header's children. */
  datatype Markup = Markup(authorHref: Option<string>, textBody: Option<string>, header: seq<Control>)

  /** The comment's own `onclick`: none yet, the hide/reveal toggle, or the
      empty handler a successful reveal installs. */
  datatype Handler = NoHandler | HideReveal | Inert

  /** A comment element: its current content, the content saved in its
      `data-banned` attribute while it is hidden, and its click handler. */
  datatype Comment = Comment(content: Markup, saved: Option<Markup>, handler: Handler)

  /** An author's `stats` property: not requested, a request in flight (the
      promise), or the record `fetchStats` stored. */
  datatype StatsSlot = Unfetched | Pending | Resolved(stats: Stats)

  /** An entry of the script's index: the author's comments, as positions in
      the page's comment list, and the stats slot. */
  datatype Entry = Entry(comments: seq<nat>, slot: StatsSlot)

  type Index = map<AuthorId, Entry>

  /** The exceptions the script can raise while processing a comment: the
      text element is missing (`indexOne`), or the author has no index entry
      (`addBanButtonAndInfo`, the ban button's handler). */
  datatype Error = MissingTextElement | NotIndexed(author: AuthorId)

  datatype Outcome = Pass | Fail(error: Error)

  /** The `HIDDEN_COMMENT` markup: an author link without `href` and the
      notice in the text element. */
  const Placeholder: Markup := Markup(Some(""), Some("Hidden content, click to show"), [])

  function AuthorOf(m: Markup): Option<AuthorId> {
    GetAuthor(m.authorHref)
  }

  /** The placeholder has no author, so the script never renders into it. */
  lemma PlaceholderHasNoAuthor()
    ensures AuthorOf(Placeholder).None?
  {
  }

  function SlotOf(index: Index, a: AuthorId): StatsSlot {
    if a in index then index[a].slot else Unfetched
  }

  // ---------------------------------------------------------------------
  // The author header

  datatype Kind = ButtonKind | InfoKind | OtherKind

  predicate OfKind(c: Control, k: Kind) {
    match k
    case ButtonKind => c.BanButton?
    case InfoKind => c.InfoBlock?
    case OtherKind => c.Other?
  }

  function Count(cs: seq<Control>, k: Kind): nat {
    if cs == [] then 0 else (if OfKind(cs[0], k) then 1 else 0) + Count(cs[1..], k)
  }

  /** The page's own children of the header, in order. */
  function Foreign(cs: seq<Control>): seq<string> {
    if cs == [] then []
    else (if cs[0].Other? then [cs[0].markup] else []) + Foreign(cs[1..])
  }

  lemma {:induction false} CountAppend(a: seq<Control>, b: seq<Control>, k: Kind)
    ensures Count(a + b, k) == Count(a, k) + Count(b, k)
    ensures Foreign(a + b) == Foreign(a) + Foreign(b)
  {
    if a != [] {
      assert (a + b)[1..] == a[1..] + b;
      CountAppend(a[1..], b, k);
    } else {
      assert a + b == b;
    }
  }

  /** `parent.removeChild(parent.querySelectorAll(selector)[0])` when there is
      such a child: removes the first control of kind `k`. */
  function RemoveFirst(cs: seq<Control>, k: Kind): (r: seq<Control>)
    ensures Count(cs, k) == 0 ==> r == cs
    ensures Count(r, k) == if Count(cs, k) == 0 then 0 else Count(cs, k) - 1
    ensures forall j: Kind :: j != k ==> Count(r, j) == Count(cs, j)
    ensures k != OtherKind ==> Foreign(r) == Foreign(cs)
  {
    if cs == [] then []
    else if OfKind(cs[0], k) then cs[1..]
    else
      var rest := RemoveFirst(cs[1..], k);
      assert ([cs[0]] + rest)[1..] == rest;
      [cs[0]] + rest
  }

  /** Removing from a concatenation whose first part has nothing to remove
      removes from the second part. */
  lemma {:induction false} RemoveFirstSkips(a: seq<Control>, b: seq<Control>, k: Kind)
    requires Count(a, k) == 0
    ensures RemoveFirst(a + b, k) == a + RemoveFirst(b, k)
  {
    if a != [] {
      assert (a + b)[0] == a[0];
      assert (a + b)[1..] == a[1..] + b;
      RemoveFirstSkips(a[1..], b, k);
      assert a == [a[0]] + a[1..];
    } else {
      assert a + b == b;
    }
  }

  /** With at most one control of a kind, two controls of that kind in the
      header are the same control. */
  lemma {:induction false} OnlyOne(cs: seq<Control>, k: Kind, x: Control, y: Control)
    requires Count(cs, k) <= 1
    requires x in cs && y in cs && OfKind(x, k) && OfKind(y, k)
    ensures x == y
  {
    if cs[0] != x && cs[0] != y {
      OnlyOne(cs[1..], k, x, y);
    } else if cs[0] == x && cs[0] != y {
      assert y in cs[1..];
      NoneOfKind(cs[1..], k, y);
    } else if cs[0] != x {
      assert x in cs[1..];
      NoneOfKind(cs[1..], k, x);
    }
  }

  lemma {:induction false} NoneOfKind(cs: seq<Control>, k: Kind, x: Control)
    requires Count(cs, k) == 0 && OfKind(x, k)
    ensures x !in cs
  {
    if cs != [] {
      NoneOfKind(cs[1..], k, x);
    }
  }

  /** The ban button for an author: "😇" titled "unban" for a banned author,
      "🤡" titled "ban" otherwise. */
  function ButtonFor(banned: bool): (b: Control)
    ensures b.BanButton?
    ensures b.title == "unban" <==> banned
  {
    if banned then BanButton("\U{1F607}", "unban") else BanButton("\U{1F921}", "ban")
  }

  /** The info block for a stored stats record: the long form once it has
      been expanded, the summary otherwise. */
  function InfoFor(s: Stats): (c: Control)
    ensures c.InfoBlock? && (c.view.Long? <==> s.expanded)
  {
    InfoBlock(if s.expanded then Long(s.registration, s.activities) else Short(Summary(s)))
  }

  /** `addBanButtonAndInfo`: for a comment whose author resolves, drop the old
      button and info block, append the button for the author's ban status,
      then the info block when the author's stats are stored. The index lookup
      throws for an author without an entry, after the button is appended. */
  function Rendered(m: Markup, flags: Flags, index: Index): (r: (Markup, Outcome))
    ensures r.0.authorHref == m.authorHref && r.0.textBody == m.textBody
  {
    match AuthorOf(m)
    case None => (m, Pass)
    case Some(a) =>
      var withButton := RemoveFirst(RemoveFirst(m.header, ButtonKind), InfoKind) + [ButtonFor(IsBanned(flags, a))];
      if a !in index then (m.(header := withButton), Fail(NotIndexed(a)))
      else match index[a].slot
        case Resolved(s) => (m.(header := withButton + [InfoFor(s)]), Pass)
        case _ => (m.(header := withButton), Pass)
  }

  /** A render changes only the ban button and the info block of the
      header; it leaves a comment without author alone, and fails exactly
      for an author without an index entry. */
  lemma {:induction false} RenderedOutcome(m: Markup, flags: Flags, index: Index)
    ensures var r := Rendered(m, flags, index);
      && Foreign(r.0.header) == Foreign(m.header)
      && (AuthorOf(m).None? ==> r == (m, Pass))
      && (r.1.Fail? <==> AuthorOf(m).Some? && AuthorOf(m).value !in index)
      && (r.1.Fail? ==> r.1.error == NotIndexed(AuthorOf(m).value))
  {
    if AuthorOf(m).Some? {
      var a := AuthorOf(m).value;
      var kept := RemoveFirst(RemoveFirst(m.header, ButtonKind), InfoKind);
      var button := ButtonFor(IsBanned(flags, a));
      CountAppend(kept, [button], OtherKind);
      if a in index && index[a].slot.Resolved? {
        CountAppend(kept + [button], [InfoFor(index[a].slot.stats)], OtherKind);
      }
    }
  }

  /** After a render of a comment whose author resolves, the header holds
      the button for the author's status, one button if it held at most
      one, and the info block exactly when the author's stats are stored. */
  lemma {:induction false} RenderedHeader(m: Markup, flags: Flags, index: Index)
    requires AuthorOf(m).Some?
    ensures var r := Rendered(m, flags, index);
      var a := AuthorOf(m).value;
      && ButtonFor(IsBanned(flags, a)) in r.0.header
      && (Count(m.header, ButtonKind) <= 1 ==> Count(r.0.header, ButtonKind) == 1)
      && (Count(m.header, InfoKind) <= 1 ==>
            Count(r.0.header, InfoKind) == if a in index && SlotOf(index, a).Resolved? then 1 else 0)
      && (a in index && SlotOf(index, a).Resolved? ==> InfoFor(SlotOf(index, a).stats) in r.0.header)
  {
    var a := AuthorOf(m).value;
    var kept := RemoveFirst(RemoveFirst(m.header, ButtonKind), InfoKind);
    var button := ButtonFor(IsBanned(flags, a));
    var withButton := kept + [button];
    CountAppend(kept, [button], ButtonKind);
    CountAppend(kept, [button], InfoKind);
    if a in index && index[a].slot.Resolved? {
      var info := InfoFor(index[a].slot.stats);
      CountAppend(withButton, [info], ButtonKind);
      CountAppend(withButton, [info], InfoKind);
    }
  }

  /** The header shows one ban button, and its title is "unban" exactly when
      the author is banned. */
  lemma RenderedLabel(m: Markup, flags: Flags, index: Index, x: Control)
    requires AuthorOf(m).Some? && Count(m.header, ButtonKind) <= 1
    requires x in Rendered(m, flags, index).0.header && x.BanButton?
    ensures x == ButtonFor(IsBanned(flags, AuthorOf(m).value))
    ensures x.title == "unban" <==> IsBanned(flags, AuthorOf(m).value)
  {
    RenderedHeader(m, flags, index);
    OnlyOne(Rendered(m, flags, index).0.header, ButtonKind, x, ButtonFor(IsBanned(flags, AuthorOf(m).value)));
  }

  /** Removing the first button and then the first info block from a header
      that had both removed and got one button and at most one info block
      appended gives back the header before the append. */
  lemma StripAppended(kept: seq<Control>, button: Control, info: seq<Control>)
    requires Count(kept, ButtonKind) == 0 && Count(kept, InfoKind) == 0
    requires button.BanButton? && (info == [] || (|info| == 1 && info[0].InfoBlock?))
    ensures RemoveFirst(RemoveFirst(kept + [button] + info, ButtonKind), InfoKind) == kept
  {
    assert kept + [button] + info == kept + ([button] + info);
    RemoveFirstSkips(kept, [button] + info, ButtonKind);
    assert RemoveFirst([button] + info, ButtonKind) == info;
    RemoveFirstSkips(kept, info, InfoKind);
    if info != [] {
      assert RemoveFirst(info, InfoKind) == [];
    }
    assert kept + [] == kept;
  }

  /** Rendering twice is rendering once: the second call removes exactly the
      button and info block the first one added and adds the same again. */
  lemma {:induction false} RenderedIdempotent(m: Markup, flags: Flags, index: Index)
    requires Count(m.header, ButtonKind) <= 1 && Count(m.header, InfoKind) <= 1
    ensures Rendered(Rendered(m, flags, index).0, flags, index) == Rendered(m, flags, index)
  {
    var r := Rendered(m, flags, index);
    if AuthorOf(m).Some? {
      var a := AuthorOf(m).value;
      var kept := RemoveFirst(RemoveFirst(m.header, ButtonKind), InfoKind);
      var button := ButtonFor(IsBanned(flags, a));
      var info := if a in index && index[a].slot.Resolved? then [InfoFor(index[a].slot.stats)] else [];
      assert r.0 == m.(header := kept + [button] + info);
      StripAppended(kept, button, info);
    }
  }

  // ---------------------------------------------------------------------
  // Hiding and revealing

  /** A hidden comment shows the placeholder and reacts to clicks; the saved
      content exists exactly while it is hidden. */
  predicate Consistent(c: Comment) {
    c.saved.Some? ==> c.content == Placeholder && c.handler == HideReveal
  }

  /** The unhide step: put the saved content back, render it, and install the
      empty handler, which is skipped when the render throws. */
  function Restore(c: Comment, flags: Flags, index: Index): (r: (Comment, Outcome))
    requires c.saved.Some?
    ensures r.0.saved.None?
    ensures r.0.content == Rendered(c.saved.value, flags, index).0
    ensures r.1 == Rendered(c.saved.value, flags, index).1
    ensures r.0.handler == if r.1.Pass? then Inert else c.handler
  {
    var (m, o) := Rendered(c.saved.value, flags, index);
    (Comment(m, None, if o.Pass? then Inert else c.handler), o)
  }

  /** The hide step: save the content and show the placeholder. */
  function Hide(c: Comment): (r: Comment)
    ensures Consistent(r) && r.saved == Some(c.content)
  {
    Comment(Placeholder, Some(c.content), HideReveal)
  }

  /** `hideContentIfNeeded` with the ban test's answer given as `banned`: a
      comment without a text element is left alone; a banned one is hidden
      (whatever it shows); otherwise a hidden one is revealed. */
  function HideWith(c: Comment, banned: bool, flags: Flags, index: Index): (r: (Comment, Outcome))
    ensures c.content.textBody.None? ==> r == (c, Pass)
    ensures c.content.textBody.Some? && banned ==> r == (Hide(c), Pass)
    ensures c.content.textBody.Some? && !banned && c.saved.Some? ==> r == Restore(c, flags, index)
    ensures !banned && c.saved.None? ==> r == (c, Pass)
  {
    if c.content.textBody.None? then (c, Pass)
    else if banned then (Hide(c), Pass)
    else if c.saved.Some? then Restore(c, flags, index)
    else (c, Pass)
  }

  /** `hideContentIfNeeded` as intended: only a comment whose author resolves
      and is banned is hidden. */
  function HideContentIfNeeded(c: Comment, flags: Flags, index: Index): (r: (Comment, Outcome))
    ensures Consistent(c) ==> Consistent(r.0)
  {
    HideWith(c, IsCommentFromBanned(flags, AuthorOf(c.content)), flags, index)
  }

  /** `hideContentIfNeeded` as written: the ban test reads
      `storage["undefined"]` for a comment without a resolvable author, the
      placeholder included. */
  function HideContentIfNeededAsWritten(c: Comment, flags: Flags, index: Index): (r: (Comment, Outcome))
    ensures Consistent(c) ==> Consistent(r.0)
  {
    HideWith(c, IsCommentFromBannedAsWritten(flags, AuthorOf(c.content)), flags, index)
  }

  /** A click on the comment itself: the hide/reveal handler reveals a hidden
      comment and hides a shown one again; the other handlers do nothing. */
  function Click(c: Comment, flags: Flags, index: Index): (r: (Comment, Outcome))
    ensures Consistent(c) ==> Consistent(r.0)
    ensures c.handler != HideReveal ==> r == (c, Pass)
    ensures c.handler == HideReveal && c.saved.None? ==> r == (Hide(c), Pass)
    ensures c.handler == HideReveal && c.saved.Some? ==> r == Restore(c, flags, index)
  {
    if c.handler != HideReveal then (c, Pass)
    else if c.saved.Some? then Restore(c, flags, index)
    else (Hide(c), Pass)
  }

  /** What the ban button's handler does to each comment of the author:
      render it, then apply `hideContentIfNeeded`; a throw ends the loop. */
  function Refreshed(c: Comment, flags: Flags, index: Index): (r: (Comment, Outcome))
    ensures Consistent(c) ==> Consistent(r.0)
  {
    var (m, o) := Rendered(c.content, flags, index);
    if o.Fail? then (c.(content := m), o)
    else HideContentIfNeeded(c.(content := m), flags, index)
  }

  /** The header holds at most one button and one info block. */
  predicate Tidy(m: Markup) {
    Count(m.header, ButtonKind) <= 1 && Count(m.header, InfoKind) <= 1
  }

  /** A shown comment of a banned author with a text element is hidden by a
      refresh, and the content it saves is the freshly rendered one. */
  lemma RefreshHidesBanned(c: Comment, flags: Flags, index: Index)
    requires c.saved.None? && c.content.textBody.Some?
    requires AuthorOf(c.content).Some? && AuthorOf(c.content).value in index
    requires IsBanned(flags, AuthorOf(c.content).value)
    ensures Refreshed(c, flags, index) == (Hide(c.(content := Rendered(c.content, flags, index).0)), Pass)
  {
  }

  /** Hiding, then clicking, shows the comment again, rendered as it was
      before it was hidden, and leaves the empty handler in place. */
  lemma {:induction false} RevealRestores(c: Comment, flags: Flags, index: Index)
    requires Consistent(c) && c.saved.None? && c.content.textBody.Some? && Tidy(c.content)
    requires AuthorOf(c.content).Some? && AuthorOf(c.content).value in index
    requires IsBanned(flags, AuthorOf(c.content).value)
    ensures var hidden := Refreshed(c, flags, index);
      hidden.1 == Pass && hidden.0.content == Placeholder
      && Click(hidden.0, flags, index) == (Comment(Rendered(c.content, flags, index).0, None, Inert), Pass)
  {
    RenderedIdempotent(c.content, flags, index);
  }

  /** Unbanning reveals: a hidden comment of an author who is no longer
      banned is refreshed into its saved content, rendered with the new
      status, and the reveal handler is replaced by the empty one. */
  lemma {:induction false} RefreshRevealsUnbanned(c: Comment, flags: Flags, index: Index)
    requires Consistent(c) && c.saved.Some?
    requires AuthorOf(c.saved.value).Some? && AuthorOf(c.saved.value).value in index
    requires !IsBanned(flags, AuthorOf(c.saved.value).value)
    ensures Refreshed(c, flags, index) == (Comment(Rendered(c.saved.value, flags, index).0, None, Inert), Pass)
  {
    PlaceholderHasNoAuthor();
  }

  /** The saved content survives `hideContentIfNeeded`: applied to a hidden
      comment it reveals the saved content whatever the ban map holds (so
      applying it twice to a shown banned comment shows it again). */
  lemma {:induction false} ReapplyReveals(c: Comment, flags: Flags, index: Index)
    requires Consistent(c) && c.saved.Some?
    ensures HideContentIfNeeded(c, flags, index) == Restore(c, flags, index)
  {
    PlaceholderHasNoAuthor();
  }

  /** The ban test as written loses the saved content: once the id
      "undefined" is banned, applying `hideContentIfNeeded` to a hidden
      comment saves the placeholder over the original, and the next click
      shows the placeholder for good. */
  lemma {:induction false} AsWrittenLosesSavedContent(c: Comment, flags: Flags, index: Index)
    requires Consistent(c) && c.saved.Some? && c.saved.value != Placeholder
    requires IsBanned(flags, "undefined")
    ensures var r := HideContentIfNeededAsWritten(c, flags, index);
      r.0.saved == Some(Placeholder) && r.0.saved != c.saved
      && Click(r.0, flags, index).0.content == Placeholder
  {
    PlaceholderHasNoAuthor();
  }

  /** The ban test as written also hides every comment that has a text
      element but no resolvable author link, which no button can reveal. */
  lemma {:induction false} AsWrittenHidesAuthorless(c: Comment, flags: Flags, index: Index)
    requires c.saved.None? && AuthorOf(c.content).None? && c.content.textBody.Some?
    requires IsBanned(flags, "undefined")
    ensures HideContentIfNeededAsWritten(c, flags, index).0.content == Placeholder
    ensures HideContentIfNeeded(c, flags, index) == (c, Pass)
  {
  }

  /** Unless the id "undefined" is banned, the ban test as written and the
      corrected one make `hideContentIfNeeded` do the same thing. */
  lemma AsWrittenAgrees(c: Comment, flags: Flags, index: Index)
    requires !IsBanned(flags, "undefined")
    ensures HideContentIfNeededAsWritten(c, flags, index) == HideContentIfNeeded(c, flags, index)
  {
    BannedReadingsAgree(flags, AuthorOf(c.content));
  }

  /** A comment whose author is not banned and that has nothing saved is left
      as it is. */
  lemma NotBannedUntouched(c: Comment, flags: Flags, index: Index)
    requires c.saved.None?
    requires AuthorOf(c.content).None? || !IsBanned(flags, AuthorOf(c.content).value)
    ensures HideContentIfNeeded(c, flags, index) == (c, Pass)
  {
  }
}
