/** Author identifiers: `getAuthor` matches the author link's `href` against
    the regular expression `users\/(.+)\/` and returns the first capture group.
    The match is the leftmost one; `.+` is greedy and stops at a line
    terminator, so the capture runs from just after the first `users/` that
    admits a match to the last `/` on the same line. */
module Authors {
  import opened Wrappers
  import opened Text

  type AuthorId = string

  const UsersSegment: string := "users/"

  /** The first line terminator at or after `k`, or the end of `s`. */
  function LineEnd(s: string, k: nat): (e: nat)
    requires k <= |s|
    ensures k <= e <= |s|
    ensures e < |s| ==> IsLineTerminator(s[e])
    ensures forall j :: k <= j < e ==> !IsLineTerminator(s[j])
    decreases |s| - k
  {
    if k == |s| || IsLineTerminator(s[k]) then k else LineEnd(s, k + 1)
  }

  /** The last `/` in `s[lo..hi]`. */
  function LastSlash(s: string, lo: nat, hi: nat): (j: Option<nat>)
    requires lo <= hi <= |s|
    ensures j.Some? ==> lo <= j.value < hi && s[j.value] == '/'
    ensures j.Some? ==> forall k :: j.value < k < hi ==> s[k] != '/'
    ensures j.None? ==> forall k :: lo <= k < hi ==> s[k] != '/'
    decreases hi - lo
  {
    if hi == lo then None
    else if s[hi - 1] == '/' then Some(hi - 1)
    else LastSlash(s, lo, hi - 1)
  }

  predicate SegmentAt(s: string, i: nat) {
    i + |UsersSegment| <= |s| && s[i..i + |UsersSegment|] == UsersSegment
  }

  /** The capture of a match of `users\/(.+)\/` that starts at `i`, given as
      the bounds of the capture group. */
  function MatchAt(s: string, i: nat): (m: Option<(nat, nat)>)
    ensures m.Some? ==> SegmentAt(s, i) && m.value.0 == i + |UsersSegment|
    ensures m.Some? ==> m.value.0 < m.value.1 < |s| && s[m.value.1] == '/'
    ensures m.Some? ==> forall k :: m.value.0 <= k <= m.value.1 ==> !IsLineTerminator(s[k])
    ensures m.Some? ==> forall k :: m.value.1 < k < LineEnd(s, m.value.0) ==> s[k] != '/'
  {
    if !SegmentAt(s, i) then None
    else
      var start := i + |UsersSegment|;
      var e := LineEnd(s, start);
      if e <= start then None
      else match LastSlash(s, start + 1, e)
        case None => None
        case Some(j) => Some((start, j))
  }

  /** The capture of the leftmost match at or after `i`. */
  function Capture(s: string, i: nat): (a: Option<AuthorId>)
    requires i <= |s|
    ensures a.Some? ==> a.value != [] && forall k :: 0 <= k < |a.value| ==> !IsLineTerminator(a.value[k])
    decreases |s| - i
  {
    if i == |s| then None
    else match MatchAt(s, i)
      case Some(m) => Some(s[m.0..m.1])
      case None => Capture(s, i + 1)
  }

  /** `getAuthor` on the `href` of the comment's author link: nothing without
      a link, an empty `href` or a match. */
  function GetAuthor(href: Option<string>): (a: Option<AuthorId>)
    ensures href.None? || href == Some("") ==> a.None?
    ensures a.Some? ==> a.value != []
    ensures a.Some? ==> forall k :: 0 <= k < |a.value| ==> !IsLineTerminator(a.value[k])
  {
    match href
    case None => None
    case Some(s) => Capture(s, 0)
  }

  /** A match of `users\/(.+)\/` in `s` taken independently of how it is
      found: the segment at `i`, at least one character that is not a line
      terminator, and a `/` at `j`. */
  predicate IsMatch(s: string, i: nat, j: nat) {
    && SegmentAt(s, i)
    && i + |UsersSegment| < j < |s| && s[j] == '/'
    && forall k :: i + |UsersSegment| <= k < j ==> !IsLineTerminator(s[k])
  }

  /** `MatchAt` finds a match at `i` exactly when there is one, and then the
      greedy one: the capture ends at the last `/` any match at `i` can end
      at. */
  lemma {:induction false} MatchAtIsGreedy(s: string, i: nat)
    ensures MatchAt(s, i).None? <==> forall j: nat :: !IsMatch(s, i, j)
    ensures MatchAt(s, i).Some? ==>
      && IsMatch(s, i, MatchAt(s, i).value.1)
      && forall j: nat :: IsMatch(s, i, j) ==> j <= MatchAt(s, i).value.1
  {
    if SegmentAt(s, i) {
      var start := i + |UsersSegment|;
      var e := LineEnd(s, start);
      assert forall j: nat :: IsMatch(s, i, j) ==> start < j < e;
      if MatchAt(s, i).Some? {
        assert IsMatch(s, i, MatchAt(s, i).value.1);
      } else if e > start {
        assert LastSlash(s, start + 1, e).None?;
      }
    }
  }

  /** There is no capture at or after `i` exactly when no match starts at
      or after `i`. */
  lemma {:induction false} NoCaptureNoMatch(s: string, i: nat)
    requires i <= |s|
    ensures Capture(s, i).None? <==> forall k: nat, j: nat :: i <= k ==> !IsMatch(s, k, j)
    decreases |s| - i
  {
    if i < |s| {
      MatchAtIsGreedy(s, i);
      NoCaptureNoMatch(s, i + 1);
    }
  }

  /** `getAuthor` on a link gives nothing exactly when the link holds no
      match of the pattern. */
  lemma GetAuthorNoMatch(s: string)
    ensures GetAuthor(Some(s)).None? <==> forall k: nat, j: nat :: !IsMatch(s, k, j)
  {
    NoCaptureNoMatch(s, 0);
  }

  /** Otherwise `getAuthor` gives the capture of the greedy match at the
      leftmost position that has one: a match at `k` with no match before
      `k` and no match at `k` ending after `j` gives `s[k + 6..j]`. */
  lemma GetAuthorLeftmostGreedy(s: string, k: nat, j: nat)
    requires IsMatch(s, k, j)
    requires forall k': nat, j': nat :: k' < k ==> !IsMatch(s, k', j')
    requires forall j': nat :: IsMatch(s, k, j') ==> j' <= j
    ensures GetAuthor(Some(s)) == Some(s[k + |UsersSegment|..j])
  {
    forall k': nat | k' < k ensures MatchAt(s, k').None? {
      MatchAtIsGreedy(s, k');
    }
    CaptureSkips(s, 0, k);
    MatchAtIsGreedy(s, k);
  }

  /** The shape of a profile link on the forum. */
  function ProfileLink(a: AuthorId): string {
    "https://dou.ua/" + UsersSegment + a + "/"
  }

  /** `getUrl`: the activities page of an author's profile. */
  function ActivitiesUrl(a: AuthorId): (url: string)
    ensures url == ProfileLink(a) + "activities/"
  {
    "https://dou.ua/" + UsersSegment + a + "/activities/"
  }

  /** No `users/` segment starts inside the fixed prefix of a profile link. */
  lemma NoSegmentInSitePrefix(s: string, k: nat)
    requires |s| >= 21 && s[..21] == "https://dou.ua/users/"
    requires k < 15
    ensures !SegmentAt(s, k)
  {
    assert s[k] == "https://dou.ua/users/"[k];
    assert s[k + 1] == "https://dou.ua/users/"[k + 1];
    assert s[k..k + |UsersSegment|][0] == s[k];
    assert s[k..k + |UsersSegment|][1] == s[k + 1];
  }

  /** No `/` follows a prefix when what follows it holds none. */
  lemma NoSlashIn(prefix: string, tail: string)
    requires forall k :: 0 <= k < |tail| ==> tail[k] != '/'
    ensures forall j :: |prefix| <= j < |prefix + tail| ==> (prefix + tail)[j] != '/'
  {
    forall j | |prefix| <= j < |prefix + tail| ensures (prefix + tail)[j] != '/' {
      assert (prefix + tail)[j] == tail[j - |prefix|];
    }
  }

  /** Reading the author back out of a link built for that author gives the
      author back, whatever characters the author id holds (short of a line
      terminator), `/` and `users/` included, and whatever follows the link
      short of a `/`. */
  lemma {:induction false} ProfileLinkRoundTrip(a: AuthorId, tail: string)
    requires a != []
    requires forall k :: 0 <= k < |a| ==> !IsLineTerminator(a[k])
    requires forall k :: 0 <= k < |tail| ==> tail[k] != '/'
    ensures GetAuthor(Some(ProfileLink(a) + tail)) == Some(a)
  {
    var s := ProfileLink(a) + tail;
    var slash := 21 + |a|;
    assert s[..21] == "https://dou.ua/users/";
    forall k: nat, j: nat | k < 15 ensures !IsMatch(s, k, j) {
      NoSegmentInSitePrefix(s, k);
    }
    assert s[15..21] == UsersSegment;
    assert s[slash] == '/';
    forall k | 21 <= k < slash ensures !IsLineTerminator(s[k]) {
      assert s[k] == a[k - 21];
    }
    NoSlashIn(ProfileLink(a), tail);
    GetAuthorLeftmostGreedy(s, 15, slash);
    assert s[21..slash] == a;
  }

  /** When no match starts before `k`, the leftmost match at or after `i` is
      the leftmost match at or after `k`. */
  lemma {:induction false} CaptureSkips(s: string, i: nat, k: nat)
    requires i <= k <= |s|
    requires forall j :: i <= j < k ==> MatchAt(s, j).None?
    ensures Capture(s, i) == Capture(s, k)
    decreases k - i
  {
    if i < k {
      CaptureSkips(s, i + 1, k);
    }
  }

  /** The match is greedy: for the activities URL, which the script fetches,
      the extracted id runs on to the last slash and takes in `activities`. */
  lemma ActivitiesUrlIsGreedy(a: AuthorId)
    requires a != []
    requires forall k :: 0 <= k < |a| ==> !IsLineTerminator(a[k])
    ensures GetAuthor(Some(ActivitiesUrl(a))) == Some(a + "/activities")
  {
    assert ActivitiesUrl(a) == ProfileLink(a + "/activities") + "";
    ProfileLinkRoundTrip(a + "/activities", "");
  }
}
