/** The profile statistics `fetchStats` extracts from an author's activities
    page, and the one-line summary the info block shows. The fetched page is
    given as the text of its status region and the child nodes of its content
    menu. */
module Stats {
  import opened Wrappers
  import opened Text

  /** The first element child of a content-menu item: `markup` is what the
      expanded info block shows, `sub` the text of its first `sub` element. */
  datatype Fragment = Fragment(markup: string, sub: Option<string>)

  /** A child node of the content menu: its `innerText` (empty for nodes that
      have none, such as the white space between items) and its first element
      child. */
  datatype MenuNode = MenuNode(innerText: string, firstChild: Option<Fragment>)

  /** The record stored in an author's stats slot. `expanded` is the
      `shouldShowLongVersion` flag the info block's click sets. */
  datatype Stats = Stats(
    registration: string,
    registrationShort: string,
    activities: seq<Fragment>,
    activitiesShort: seq<string>,
    expanded: bool)

  /** The lookups on the fetched page that throw: no status region, no content
      menu, or a selected menu item without an element child. */
  datatype ParseError = MissingStatusInfo | MissingContentMenu | ActivityWithoutElement

  /** `registration`: the last line of the status text once tabs are removed
      and the whole is trimmed. */
  function Registration(statusText: string): (r: string)
    ensures '\n' !in r
  {
    LastLine(Trim(RemoveTabs(statusText)))
  }

  /** The registration line holds no tab: tabs are removed first, and
      trimming and taking the last line only drop characters. */
  lemma RegistrationHasNoTab(statusText: string)
    ensures '\t' !in Registration(statusText)
  {
    var untabbed := RemoveTabs(statusText);
    TrimKeepsCharacters(untabbed);
    LastLineKeepsCharacters(Trim(untabbed));
  }

  /** `parseInt` of the last (up to) four digits of the registration line,
      None where `parseInt` gives NaN because the line has no digit. */
  function RegistrationYear(registration: string): (y: Option<nat>)
    ensures y.None? <==> KeepDigits(registration) == []
    ensures y.Some? ==> y.value < 10000
  {
    var digits := TakeLast(KeepDigits(registration), 4);
    if digits == [] then None
    else
      assert Pow10(|digits|) <= 10000 by {
        assert |digits| <= 4;
        if |digits| < 4 { assert |digits| <= 3; }
      }
      Some(DigitsValue(digits))
  }

  /** `registrationShort`: YEAR minus the registration year, in decimal, or
      "NaN" when there is no year to subtract. */
  function RegistrationShort(registration: string, year: int): (r: string)
    ensures r == "NaN" <==> RegistrationYear(registration).None?
    ensures RegistrationYear(registration).Some? ==> Denotes(r, year - RegistrationYear(registration).value)
  {
    match RegistrationYear(registration)
    case None => "NaN"
    case Some(y) => IntToString(year - y)
  }

  /** The child nodes with non-empty text, in document order. */
  function NonEmptyItems(menu: seq<MenuNode>): (r: seq<MenuNode>)
    ensures |r| <= |menu|
    ensures forall k :: 0 <= k < |r| ==> r[k].innerText != [] && r[k] in menu
    ensures forall n :: n in menu && n.innerText != [] ==> n in r
  {
    if menu == [] then []
    else (if menu[0].innerText != [] then [menu[0]] else []) + NonEmptyItems(menu[1..])
  }

  /** The kept items stay in document order: the items of a concatenation
      are the items of its parts, one after the other. */
  lemma {:induction false} NonEmptyItemsAppend(a: seq<MenuNode>, b: seq<MenuNode>)
    ensures NonEmptyItems(a + b) == NonEmptyItems(a) + NonEmptyItems(b)
  {
    if a == [] {
      assert a + b == b;
    } else {
      var head := if a[0].innerText != [] then [a[0]] else [];
      assert (a + b)[0] == a[0];
      assert (a + b)[1..] == a[1..] + b;
      calc {
        NonEmptyItems(a + b);
        head + NonEmptyItems(a[1..] + b);
        { NonEmptyItemsAppend(a[1..], b); }
        head + (NonEmptyItems(a[1..]) + NonEmptyItems(b));
        (head + NonEmptyItems(a[1..])) + NonEmptyItems(b);
      }
    }
  }

  /** `.filter(e => e.innerText).slice(1, 3)`: the second and third non-empty
      items, as far as they exist. */
  function SelectedItems(menu: seq<MenuNode>): (r: seq<MenuNode>)
    ensures var n := |NonEmptyItems(menu)|; |r| == if n <= 1 then 0 else if n == 2 then 1 else 2
    ensures forall k :: 0 <= k < |r| ==> r[k] == NonEmptyItems(menu)[k + 1]
  {
    var items := NonEmptyItems(menu);
    if |items| <= 1 then [] else items[1..if |items| < 3 then |items| else 3]
  }

  /** `.map(e => e.querySelector("sub")?.innerText).filter(_ => _)`: the
      non-empty sub-labels of the activities, in order. */
  function ActivitiesShort(activities: seq<Fragment>): (r: seq<string>)
    ensures |r| <= |activities|
    ensures forall k :: 0 <= k < |r| ==> r[k] != []
    ensures forall k :: 0 <= k < |r| ==> exists j :: 0 <= j < |activities| && activities[j].sub == Some(r[k])
    ensures forall j :: 0 <= j < |activities| && activities[j].sub.Some? && activities[j].sub.value != [] ==>
      activities[j].sub.value in r
  {
    if activities == [] then []
    else
      var rest := ActivitiesShort(activities[1..]);
      assert forall k :: 0 <= k < |rest| ==> exists j :: 0 <= j < |activities| && activities[j].sub == Some(rest[k]) by {
        forall k | 0 <= k < |rest| ensures exists j :: 0 <= j < |activities| && activities[j].sub == Some(rest[k]) {
          var j :| 0 <= j < |activities[1..]| && activities[1..][j].sub == Some(rest[k]);
          assert activities[j + 1].sub == Some(rest[k]);
        }
      }
      match activities[0].sub
      case Some(sub) => if sub != [] then [sub] + rest else rest
      case None => rest
  }

  /** The labels stay in the order of their activities: the labels of a
      concatenation are the labels of its parts, one after the other. */
  lemma {:induction false} ActivitiesShortAppend(a: seq<Fragment>, b: seq<Fragment>)
    ensures ActivitiesShort(a + b) == ActivitiesShort(a) + ActivitiesShort(b)
  {
    if a == [] {
      assert a + b == b;
    } else {
      assert (a + b)[0] == a[0];
      assert (a + b)[1..] == a[1..] + b;
      ActivitiesShortAppend(a[1..], b);
    }
  }

  /** With both activities labelled, the first label is the first
      activity's and the second the second's. */
  lemma LabelsOfTwoActivities(x: Fragment, y: Fragment)
    requires x.sub.Some? && x.sub.value != [] && y.sub.Some? && y.sub.value != []
    ensures ActivitiesShort([x, y]) == [x.sub.value, y.sub.value]
  {
    assert [x, y][1..] == [y];
    assert [y][1..] == [];
  }

  /** Without a label on the first activity the second activity's label
      moves up to the first place, which the summary marks "c.". */
  lemma {:induction false} LabelMovesUp(x: Fragment, y: Fragment)
    requires x.sub.None? || x.sub == Some("")
    requires y.sub.Some? && y.sub.value != []
    ensures ActivitiesShort([x, y]) == [y.sub.value]
  {
    assert [x, y][1..] == [y];
    assert [y][1..] == [];
    assert ActivitiesShort([y]) == [y.sub.value];
  }

  /** Every selected menu item has an element child. */
  predicate HasElements(items: seq<MenuNode>) {
    forall k :: 0 <= k < |items| ==> items[k].firstChild.Some?
  }

  function Children(items: seq<MenuNode>): (r: seq<Fragment>)
    requires HasElements(items)
    ensures |r| == |items|
    ensures forall k :: 0 <= k < |r| ==> Some(r[k]) == items[k].firstChild
  {
    seq(|items|, k requires 0 <= k < |items| => items[k].firstChild.value)
  }

  /** `activities`: the element children of the selected menu items. */
  function Activities(menu: seq<MenuNode>): (r: seq<Fragment>)
    requires HasElements(SelectedItems(menu))
    ensures |r| == |SelectedItems(menu)| <= 2
    ensures forall k :: 0 <= k < |r| ==>
      k + 1 < |NonEmptyItems(menu)| && Some(r[k]) == NonEmptyItems(menu)[k + 1].firstChild
  {
    var items := SelectedItems(menu);
    assert forall k :: 0 <= k < |items| ==> k + 1 < |NonEmptyItems(menu)| && items[k] == NonEmptyItems(menu)[k + 1];
    Children(items)
  }

  /** The record `fetchStats` builds once every lookup has succeeded. */
  function BuildStats(statusText: string, menu: seq<MenuNode>, year: int): (s: Stats)
    requires HasElements(SelectedItems(menu))
    ensures !s.expanded
    ensures s.registration == Registration(statusText)
    ensures s.registrationShort == RegistrationShort(s.registration, year)
    ensures s.activities == Activities(menu)
    ensures s.activitiesShort == ActivitiesShort(s.activities)
  {
    var registration := Registration(statusText);
    var activities := Activities(menu);
    Stats(registration, RegistrationShort(registration, year), activities, ActivitiesShort(activities), false)
  }

  /** The parsing half of `fetchStats`: the record it stores in the slot, or
      the lookup that throws first. */
  function ParseProfile(statusText: Option<string>, menu: Option<seq<MenuNode>>, year: int): (r: Result<Stats, ParseError>)
    ensures r.Success? <==> statusText.Some? && menu.Some? && HasElements(SelectedItems(menu.value))
    ensures statusText.None? ==> r == Failure(MissingStatusInfo)
    ensures statusText.Some? && menu.None? ==> r == Failure(MissingContentMenu)
    ensures statusText.Some? && menu.Some? && !HasElements(SelectedItems(menu.value)) ==> r == Failure(ActivityWithoutElement)
    ensures r.Success? ==> r.value == BuildStats(statusText.value, menu.value, year)
  {
    match statusText
    case None => Failure(MissingStatusInfo)
    case Some(status) =>
      match menu
      case None => Failure(MissingContentMenu)
      case Some(nodes) =>
        if !HasElements(SelectedItems(nodes)) then Failure(ActivityWithoutElement)
        else Success(BuildStats(status, nodes, year))
  }

  /** Whether the `k`th short label is there and non-empty (`if (activitiesShort[k])`). */
  predicate HasLabel(labels: seq<string>, k: nat) {
    k < |labels| && labels[k] != []
  }

  /** The parts of the compact text: comments, topics, years since
      registration. */
  function SummaryParts(s: Stats): (parts: seq<string>)
    ensures 1 <= |parts| <= 3
  {
    (if HasLabel(s.activitiesShort, 0) then [s.activitiesShort[0] + " c."] else [])
    + (if HasLabel(s.activitiesShort, 1) then [s.activitiesShort[1] + " t."] else [])
    + [s.registrationShort + " yo."]
  }

  /** Which parts are there and where: the comments label first when it is
      non-empty, the topics label before the last part when it is non-empty,
      and the years since registration always last. */
  lemma SummaryPartsShape(s: Stats)
    ensures var parts := SummaryParts(s);
      && |parts| == 1 + (if HasLabel(s.activitiesShort, 0) then 1 else 0) + (if HasLabel(s.activitiesShort, 1) then 1 else 0)
      && parts[|parts| - 1] == s.registrationShort + " yo."
      && (HasLabel(s.activitiesShort, 0) ==> parts[0] == s.activitiesShort[0] + " c.")
      && (HasLabel(s.activitiesShort, 1) ==> parts[|parts| - 2] == s.activitiesShort[1] + " t.")
  {
  }

  /** The compact text of the info block: the parts joined with " | ". */
  function Summary(s: Stats): (text: string)
    ensures var last := s.registrationShort + " yo.";
      |last| <= |text| && text[|text| - |last|..] == last
  {
    var parts := SummaryParts(s);
    assert parts[|parts| - 1] == s.registrationShort + " yo.";
    Join(parts, " | ")
  }

  /** Two parts joined are the first, the separator and the second. */
  lemma JoinTwo(x: string, y: string, sep: string)
    ensures Join([x, y], sep) == x + sep + y
  {
    assert [x, y][..1] == [x];
  }

  /** The compact text starts with the comments label when that label is
      non-empty. */
  lemma {:induction false} SummaryStarts(s: Stats)
    ensures HasLabel(s.activitiesShort, 0) ==>
      var first := s.activitiesShort[0] + " c."; |first| <= |Summary(s)| && Summary(s)[..|first|] == first
  {
    SummaryPartsShape(s);
  }

  /** A status region of two lines, the second indented by a tab (the shape
      the profile page has): the registration line is the second line. */
  lemma RegistrationOfTwoLines(a: string, b: string)
    requires '\t' !in a && '\t' !in b && '\n' !in b
    requires a != [] && !IsWhiteSpace(a[0]) && b != [] && !IsWhiteSpace(b[|b| - 1])
    ensures Registration(a + "\n\t" + b) == b
  {
    assert a + "\n\t" + b == (a + "\n") + "\t" + b;
    RemoveTabBetween(a + "\n", b);
    TrimUnchanged(a + "\n" + b);
    LastLineAfterNewline(a, b);
  }

  lemma RegistrationExample(status: string)
    requires status == "Joined:\n\tSep 2015"
    ensures Registration(status) == "Sep 2015"
  {
    var a, b := "Joined:", "Sep 2015";
    assert status == a + "\n\t" + b;
    RegistrationOfTwoLines(a, b);
  }

  /** The year of a registration line that ends with a four-digit year is
      that year, whatever precedes it without digits. */
  lemma {:induction false} YearAtEndOfLine(prefix: string, digits: string)
    requires forall i :: 0 <= i < |prefix| ==> !IsDigit(prefix[i])
    requires |digits| == 4 && AllDigits(digits)
    ensures RegistrationYear(prefix + digits) == Some(DigitsValue(digits))
  {
    FilterAppend(prefix, digits, IsDigit);
    FilterNone(prefix, IsDigit);
    FilterAll(digits, IsDigit);
    assert KeepDigits(prefix + digits) == digits;
  }

  /** "Sep 2015" read in 2024 gives "9" years. */
  lemma RegistrationShortExample()
    ensures RegistrationShort("Sep 2015", 2024) == "9"
  {
    assert "Sep 2015" == "Sep " + "2015";
    YearAtEndOfLine("Sep ", "2015");
    assert DigitsValue("2015") == 2015 by {
      assert "2015"[..3] == "201" && "201"[..2] == "20" && "20"[..1] == "2" && "2"[..0] == "";
    }
    assert IntToString(9) == "9";
  }

  /** The compact text in each of its four shapes: `<c> c. | ` when the
      comments label is there, `<t> t. | ` when the topics label is there,
      and `<years> yo.` always. */
  lemma {:induction false} SummaryText(s: Stats)
    ensures Summary(s) ==
      (if HasLabel(s.activitiesShort, 0) then s.activitiesShort[0] + " c. | " else "")
      + (if HasLabel(s.activitiesShort, 1) then s.activitiesShort[1] + " t. | " else "")
      + s.registrationShort + " yo."
  {
    if HasLabel(s.activitiesShort, 0) && HasLabel(s.activitiesShort, 1) {
      SummaryWithBothLabels(s);
    } else if HasLabel(s.activitiesShort, 0) {
      SummaryWithOneLabel(s);
      assert s.activitiesShort[0] + " c." + " | " == s.activitiesShort[0] + " c. | ";
    } else if HasLabel(s.activitiesShort, 1) {
      SummaryWithOneLabel(s);
      assert s.activitiesShort[1] + " t." + " | " == s.activitiesShort[1] + " t. | ";
    } else {
      SummaryWithoutLabels(s);
    }
  }

  /** With exactly one activity label present the compact text has two
      parts: that label, marked "c." or "t." by its place, then the years. */
  lemma SummaryWithOneLabel(s: Stats)
    requires HasLabel(s.activitiesShort, 0) != HasLabel(s.activitiesShort, 1)
    ensures var part := if HasLabel(s.activitiesShort, 0) then s.activitiesShort[0] + " c." else s.activitiesShort[1] + " t.";
      Summary(s) == part + " | " + s.registrationShort + " yo."
  {
    var part := if HasLabel(s.activitiesShort, 0) then s.activitiesShort[0] + " c." else s.activitiesShort[1] + " t.";
    SummaryPartsShape(s);
    assert SummaryParts(s) == [part, s.registrationShort + " yo."];
    JoinTwo(part, s.registrationShort + " yo.", " | ");
  }

  /** Without activity labels the compact text is the years alone. */
  lemma SummaryWithoutLabels(s: Stats)
    requires !HasLabel(s.activitiesShort, 0) && !HasLabel(s.activitiesShort, 1)
    ensures Summary(s) == s.registrationShort + " yo."
  {
    SummaryPartsShape(s);
    assert SummaryParts(s) == [s.registrationShort + " yo."];
  }

  /** With both activity labels present the compact text has all three parts,
      in order. */
  lemma {:induction false} SummaryWithBothLabels(s: Stats)
    requires |s.activitiesShort| >= 2 && s.activitiesShort[0] != [] && s.activitiesShort[1] != []
    ensures Summary(s) == s.activitiesShort[0] + " c. | " + s.activitiesShort[1] + " t. | " + s.registrationShort + " yo."
  {
    var parts := SummaryParts(s);
    SummaryPartsShape(s);
    var c, t, y := s.activitiesShort[0] + " c.", s.activitiesShort[1] + " t.", s.registrationShort + " yo.";
    assert parts == [c, t, y];
    assert parts[..2] == [c, t] && parts[..2][..1] == [c];
    calc {
      Summary(s);
      Join([c, t], " | ") + " | " + y;
      Join([c], " | ") + " | " + t + " | " + y;
      c + " | " + t + " | " + y;
    }
  }
}
