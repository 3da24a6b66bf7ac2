/** The persisted ban map: author id to "banned", kept in memory as the
    script's `storage` object and in localStorage as one serialised document
    under a fixed key. The JSON text itself is not modelled: the document is
    represented by the map it encodes. */
module BanStore {
  import opened Wrappers
  import opened Authors

  type Flags = map<AuthorId, bool>

  /** What localStorage holds under the script's key: nothing, the empty
      string, a well-formed JSON object of flags, or text that `JSON.parse`
      rejects. */
  datatype StoredDocument = Absent | Blank | Json(flags: Flags) | Malformed

  datatype LoadError = MalformedDocument

  /** `getStorage`: a missing or empty document reads as `{}` (the `|| "{}"`
      fallback); a malformed one makes `JSON.parse` throw. */
  function Load(doc: StoredDocument): (r: Result<Flags, LoadError>)
    ensures r.Failure? <==> doc.Malformed?
    ensures doc.Absent? || doc.Blank? ==> r == Success(map[])
  {
    match doc
    case Absent => Success(map[])
    case Blank => Success(map[])
    case Json(flags) => Success(flags)
    case Malformed => Failure(MalformedDocument)
  }

  /** `JSON.stringify(storage)` as it is stored by `updateStorage`. */
  function Save(flags: Flags): (doc: StoredDocument)
    ensures !doc.Malformed?
  {
    Json(flags)
  }

  /** What `updateStorage` writes reads back as the same map. */
  lemma SaveLoadRoundTrip(flags: Flags)
    ensures Load(Save(flags)) == Success(flags)
  {
  }

  /** `!!storage[a]`: an author without an entry is not banned. */
  predicate IsBanned(flags: Flags, a: AuthorId) {
    a in flags && flags[a]
  }

  /** `isCommentFromBanned` as written: with no resolvable author the lookup
      is `storage[undefined]`, which JavaScript reads as `storage["undefined"]`. */
  predicate IsCommentFromBannedAsWritten(flags: Flags, author: Option<AuthorId>)
    ensures author.None? ==> (IsCommentFromBannedAsWritten(flags, author) <==> IsBanned(flags, "undefined"))
  {
    IsBanned(flags, if author.Some? then author.value else "undefined")
  }

  /** `isCommentFromBanned` as intended: a comment whose author does not
      resolve is never from a banned author. */
  predicate IsCommentFromBanned(flags: Flags, author: Option<AuthorId>)
    ensures IsCommentFromBanned(flags, author) ==> author.Some?
  {
    author.Some? && IsBanned(flags, author.value)
  }

  /** The two agree on every comment whose author resolves; they part only on
      comments without one, and only once the id "undefined" is banned. */
  lemma {:induction false} BannedReadingsAgree(flags: Flags, author: Option<AuthorId>)
    ensures author.Some? ==> IsCommentFromBannedAsWritten(flags, author) == IsCommentFromBanned(flags, author)
    ensures author.None? ==> (IsCommentFromBannedAsWritten(flags, author) <==> IsBanned(flags, "undefined"))
  {
  }

  /** `storage[key] = value` */
  function Updated(flags: Flags, key: AuthorId, value: bool): (r: Flags)
    ensures r.Keys == flags.Keys + {key}
    ensures IsBanned(r, key) == value
    ensures forall b :: b != key && b in flags ==> r[b] == flags[b]
  {
    flags[key := value]
  }

  /** The confirmed ban button: `storage[a] = !storage[a]`. */
  function Toggled(flags: Flags, a: AuthorId): (r: Flags)
    ensures IsBanned(r, a) == !IsBanned(flags, a)
    ensures forall b :: b != a ==> IsBanned(r, b) == IsBanned(flags, b)
  {
    Updated(flags, a, !IsBanned(flags, a))
  }

  /** Toggling twice gives every author back their ban status. */
  lemma {:induction false} ToggleTwice(flags: Flags, a: AuthorId, b: AuthorId)
    ensures IsBanned(Toggled(Toggled(flags, a), a), b) == IsBanned(flags, b)
  {
  }
}
