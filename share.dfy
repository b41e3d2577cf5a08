/** Share links: the duration parser, link creation for the owner, and the
    public view and download of a link with lazy expiry.  Times are
    milliseconds since the epoch; `now` stands for the clock and `token` for
    the random generator. */
module Share {
  import opened Wrappers
  import opened Text
  import opened FolderTable

  // Durations

  const HourMillis: nat := 3600000
  const DayMillis: nat := 86400000

  datatype Unit = Hours | Days

  /** The unit letter, case-insensitively. */
  function UnitOf(c: char): Option<Unit>
  {
    if c == 'h' || c == 'H' then Some(Hours)
    else if c == 'd' || c == 'D' then Some(Days)
    else None
  }

  function UnitHours(u: Unit): nat
  {
    match u
    case Hours => 1
    case Days => 24
  }

  function UnitMillis(u: Unit): (ms: nat)
    ensures ms == UnitHours(u) * HourMillis
  {
    match u
    case Hours => HourMillis
    case Days => DayMillis
  }

  predicate AllDigits(s: string)
  {
    forall i :: 0 <= i < |s| ==> IsDigit(s[i])
  }

  /** `parseInt(s, 10)` of a string of decimal digits. */
  function DigitsValue(s: string): nat
    requires AllDigits(s)
  {
    if s == [] then 0 else 10 * DigitsValue(s[..|s| - 1]) + (s[|s| - 1] as int - '0' as int)
  }

  /** `t` matches `^(\d+)\s*([dh])$` (flag `i`) with the digits ending at `i`. */
  ghost predicate MatchesAt(t: string, i: int)
  {
    0 < i < |t| && AllDigits(t[..i]) && AllSpace(t[i..|t| - 1]) && UnitOf(t[|t| - 1]).Some?
  }

  ghost predicate MatchesPattern(t: string)
  {
    exists i :: MatchesAt(t, i)
  }

  /** The match of the duration pattern against `t`: the number and the unit. */
  function MatchDuration(t: string): Option<(nat, Unit)>
  {
    if |t| == 0 || UnitOf(t[|t| - 1]).None? then None
    else
      var body := t[..|t| - 1];
      var digits := body[..TrailingStart(body)];
      if digits != [] && AllDigits(digits) then Some((DigitsValue(digits), UnitOf(t[|t| - 1]).value))
      else None
  }

  /** `parseDuration`: `s` is the form field, None when absent.  Anything
      that does not match the pattern after trimming means one day. */
  function ParseDuration(s: Option<string>): nat
  {
    var m := MatchDuration(Trim(if s.Some? then s.value else []));
    if m.None? then DayMillis else m.value.0 * UnitMillis(m.value.1)
  }

  /** A duration is a whole number of hours. */
  lemma DurationWholeHours(s: Option<string>)
    ensures ParseDuration(s) % HourMillis == 0
  {
    var m := MatchDuration(Trim(if s.Some? then s.value else []));
    if m.Some? {
      var hours := m.value.0 * UnitHours(m.value.1);
      assert ParseDuration(s) == hours * HourMillis;
    }
  }

  /** Whatever MatchDuration accepts matches the pattern, with the digits
      being those before the optional blanks and the unit. */
  lemma MatchDurationSound(t: string)
    requires MatchDuration(t).Some?
    ensures exists i :: (MatchesAt(t, i) &&
      MatchDuration(t).value == (DigitsValue(t[..i]), UnitOf(t[|t| - 1]).value))
  {
    var body := t[..|t| - 1];
    var i := TrailingStart(body);
    assert body[..i] == t[..i];
    assert t[i..|t| - 1] == body[i..];
    assert MatchesAt(t, i);
  }

  /** Everything that matches the pattern is accepted by MatchDuration, with
      that number and that unit. */
  lemma MatchDurationComplete(t: string, i: int)
    requires MatchesAt(t, i)
    ensures MatchDuration(t) == Some((DigitsValue(t[..i]), UnitOf(t[|t| - 1]).value))
  {
    var body := t[..|t| - 1];
    assert body[..i] == t[..i];
    assert forall k :: i <= k < |body| ==> body[k] == t[i..|t| - 1][k - i];
    assert IsDigit(body[i - 1]);
    TrailingStartUnique(body, i);
  }

  lemma MatchDurationIff(t: string)
    ensures MatchDuration(t).Some? <==> MatchesPattern(t)
  {
    if MatchDuration(t).Some? {
      MatchDurationSound(t);
    }
    if MatchesPattern(t) {
      var i :| MatchesAt(t, i);
      MatchDurationComplete(t, i);
    }
  }

  /** An absent duration, or one that does not match the pattern after
      trimming, gives the 24-hour default. */
  lemma ParseDurationDefault(s: Option<string>)
    requires s.None? || !MatchesPattern(Trim(s.value))
    ensures ParseDuration(s) == DayMillis
  {
    var t := Trim(if s.Some? then s.value else "");
    if s.None? {
      assert t == [];
    } else {
      MatchDurationIff(t);
    }
  }

  /** `"<n>h"` is n hours and `"<n>d"` is n days, whatever the case of the
      unit and whatever whitespace surrounds the input or separates the
      number from the unit. */
  lemma ParseDurationOfPattern(lead: string, digits: string, gap: string, c: char, trail: string)
    requires AllSpace(lead) && AllSpace(gap) && AllSpace(trail)
    requires digits != [] && AllDigits(digits) && UnitOf(c).Some?
    ensures ParseDuration(Some(lead + digits + gap + [c] + trail)) == DigitsValue(digits) * UnitMillis(UnitOf(c).value)
  {
    var core := digits + gap + [c];
    assert lead + digits + gap + [c] + trail == lead + core + trail;
    assert core[0] == digits[0] && IsDigit(core[0]);
    TrimPadded(lead, core, trail);
    assert core[..|digits|] == digits;
    assert core[|digits|..|core| - 1] == gap;
    assert MatchesAt(core, |digits|);
    MatchDurationComplete(core, |digits|);
  }

  // Example durations

  lemma TwoHoursDuration()
    ensures ParseDuration(Some("2h")) == 2 * HourMillis
  {
    ParseDurationOfPattern("", "2", "", 'h', "");
    assert "" + "2" + "" + ['h'] + "" == "2h";
    assert DigitsValue("2") == 2;
  }

  /** A trimmed duration that does not end in a unit letter is the default. */
  lemma NoUnitDuration(s: string)
    requires var t := Trim(s); t == [] || UnitOf(t[|t| - 1]).None?
    ensures ParseDuration(Some(s)) == DayMillis
  {
  }

  /** A character before the unit that is neither a digit nor whitespace
      (a sign, a decimal point, a letter) makes the duration the default:
      the pattern admits digits only, so no duration is negative. */
  lemma NonDigitDuration(lead: string, body: string, c: char, trail: string, k: nat)
    requires AllSpace(lead) && AllSpace(trail)
    requires k < |body| && !IsSpace(body[0]) && !IsSpace(c)
    requires !IsDigit(body[k]) && !IsSpace(body[k])
    ensures ParseDuration(Some(lead + body + [c] + trail)) == DayMillis
  {
    var core := body + [c];
    assert lead + body + [c] + trail == lead + core + trail;
    assert core[0] == body[0];
    TrimPadded(lead, core, trail);
    assert core[..|core| - 1] == body;
    var digits := body[..TrailingStart(body)];
    assert k < TrailingStart(body);
    assert digits[k] == body[k];
  }

  // Tables and responses

  datatype FileRecord = FileRecord(id: int, originalName: string, url: Option<string>, path: Option<string>, userId: int, folderId: Option<int>)

  /** A share link, stored under its token; exactly one of the targets is set
      by link creation. */
  datatype ShareLink = ShareLink(fileId: Option<int>, folderId: Option<int>, expiresAt: int)

  datatype Response =
    | NotFound(message: string)
    | BadRequest(message: string)
    | ServerError(message: string)
    | RenderFile(file: FileRecord)
    | RenderFolder(folder: Folder, children: set<int>, files: set<int>)
    | Redirect(location: string)
    | LocalDownload(path: Option<string>, name: string)

  const StatusNotFound: string := "Not Found"
  const InvalidType: string := "Invalid type"
  const CouldNotCreate: string := "Could not create link"
  const ExpiredOrMissing: string := "Link expired or not found."
  const InvalidLink: string := "Invalid link."
  const DownloadNotFound: string := "Not found."

  /** `prisma.file.findFirst({ where: { id, userId } })`. */
  function FindOwnedFile(files: map<int, FileRecord>, id: int, userId: int): (r: Option<FileRecord>)
    ensures r.Some? <==> id in files && files[id].userId == userId
    ensures r.Some? ==> r.value == files[id]
  {
    if id in files && files[id].userId == userId then Some(files[id]) else None
  }

  /** The file table is keyed by each row's own id (the primary key). */
  ghost predicate FilesKeyed(files: map<int, FileRecord>)
  {
    forall k :: k in files ==> files[k].id == k
  }

  /** The ids of the files placed directly in folder `id`. */
  function FilesIn(files: map<int, FileRecord>, id: int): (ids: set<int>)
    ensures forall k :: k in ids <==> k in files && files[k].folderId == Some(id)
  {
    set k | k in files && files[k].folderId == Some(id)
  }

  /** The largest time value a JavaScript `Date` holds: 8.64e15 ms either
      side of the epoch (section 21.4.1 of ECMA-262).  Every integer up to it
      is exact in a double, so the arithmetic of `parseDuration` and of
      `Date.now() + ...` is exact wherever the result is a valid date. */
  const MaxTime: int := 8640000000000000

  /** An instant that `new Date(...)` represents; outside it the date is
      invalid and the database refuses to store it. */
  predicate ValidTime(t: int)
  {
    -MaxTime <= t <= MaxTime
  }

  /** A link has lapsed once its expiry lies strictly in the past. */
  predicate Expired(link: ShareLink, now: int)
  {
    link.expiresAt < now
  }

  /** The link table after an insert of `link` under `token`, and the
      response: the unique token constraint turns a reused token, and the
      database's check of the date an expiry outside the `Date` range, into
      the 500 answer and leave the table as it was. */
  ghost predicate Inserted(before: map<string, ShareLink>, after: map<string, ShareLink>, r: Response, token: string, link: ShareLink)
  {
    if token in before || !ValidTime(link.expiresAt) then r == ServerError(CouldNotCreate) && after == before
    else r == Redirect("/s/" + token) && after == before[token := link]
  }

  class ShareService {
    /** The share-link table, keyed by token. */
    var links: map<string, ShareLink>
    var files: map<int, FileRecord>
    var folders: map<int, Folder>

    /** The tables are keyed by row id, and every stored link targets
        exactly one of a file and a folder and expires at a valid date. */
    ghost predicate Valid()
      reads this
    {
      FilesKeyed(files) && WellKeyed(folders) &&
      forall t :: t in links ==>
        links[t].fileId.Some? != links[t].folderId.Some? && ValidTime(links[t].expiresAt)
    }

    constructor (files: map<int, FileRecord>, folders: map<int, Folder>)
      requires FilesKeyed(files) && WellKeyed(folders)
      ensures Valid()
      ensures this.links == map[] && this.files == files && this.folders == folders
    {
      this.links, this.files, this.folders := map[], files, folders;
    }

    /** `POST /share`: bind `token` to a file or folder of the caller, to
        expire `parseDuration(duration)` after `now`. */
    method CreateLink(kind: string, id: int, duration: Option<string>, userId: int, token: string, now: int)
      returns (r: Response)
      requires Valid()
      modifies this`links
      ensures Valid()
      ensures kind != "file" && kind != "folder" ==> r == BadRequest(InvalidType) && links == old(links)
      ensures kind == "file" ==>
        match FindOwnedFile(files, id, userId)
        case None => r == NotFound(StatusNotFound) && links == old(links)
        case Some(f) => Inserted(old(links), links, r, token, ShareLink(Some(f.id), None, now + ParseDuration(duration)))
      ensures kind == "folder" ==>
        match FindOwned(folders, id, userId)
        case None => r == NotFound(StatusNotFound) && links == old(links)
        case Some(d) => Inserted(old(links), links, r, token, ShareLink(None, Some(d.id), now + ParseDuration(duration)))
      ensures kind == "file" && r.Redirect? ==>
        id in files && files[id].userId == userId &&
        forall t :: (View(links, files, folders, token, t) ==
            if t <= now + ParseDuration(duration) then RenderFile(files[id]) else NotFound(ExpiredOrMissing)) &&
          (Download(links, files, token, t).NotFound? <==> now + ParseDuration(duration) < t)
      ensures kind == "folder" && r.Redirect? ==>
        id in folders && folders[id].userId == userId &&
        forall t :: View(links, files, folders, token, t) ==
          if t <= now + ParseDuration(duration) then RenderFolder(folders[id], ChildIds(folders, id), FilesIn(files, id))
          else NotFound(ExpiredOrMissing)
    {
      var expiresAt := now + ParseDuration(duration);
      var link: ShareLink;
      if kind == "file" {
        var found := FindOwnedFile(files, id, userId);
        if found.None? {
          return NotFound(StatusNotFound);
        }
        link := ShareLink(Some(found.value.id), None, expiresAt);
      } else if kind == "folder" {
        var found := FindOwned(folders, id, userId);
        if found.None? {
          return NotFound(StatusNotFound);
        }
        link := ShareLink(None, Some(found.value.id), expiresAt);
      } else {
        return BadRequest(InvalidType);
      }
      if token in links || !ValidTime(expiresAt) {
        return ServerError(CouldNotCreate);
      }
      assert link.fileId.Some? != link.folderId.Some? && ValidTime(link.expiresAt);
      ghost var before := links;
      links := links[token := link];
      r := Redirect("/s/" + token);
      if kind == "file" {
        forall t
          ensures (View(links, files, folders, token, t) ==
              if t <= expiresAt then RenderFile(files[id]) else NotFound(ExpiredOrMissing)) &&
            (Download(links, files, token, t).NotFound? <==> expiresAt < t)
        {
          FileLinkLifecycle(before, files, folders, token, id, expiresAt, t);
        }
      } else {
        forall t
          ensures View(links, files, folders, token, t) ==
            if t <= expiresAt then RenderFolder(folders[id], ChildIds(folders, id), FilesIn(files, id))
            else NotFound(ExpiredOrMissing)
        {
          FolderLinkLifecycle(before, files, folders, token, id, expiresAt, t);
        }
      }
    }
  }

  /** `GET /s/:token`: a live link shows its file, else its folder with the
      folder's child folders and files. */
  function View(links: map<string, ShareLink>, files: map<int, FileRecord>, folders: map<int, Folder>, token: string, now: int): (r: Response)
    ensures r.NotFound? || r.RenderFile? || r.RenderFolder?
    ensures token !in links || Expired(links[token], now) ==> r == NotFound(ExpiredOrMissing)
    ensures (token in links && !Expired(links[token], now) &&
             links[token].fileId.Some? && links[token].fileId.value in files) ==> r.RenderFile?
    ensures (token in links && !Expired(links[token], now) &&
             !(links[token].fileId.Some? && links[token].fileId.value in files)) ==>
      if links[token].folderId.Some? && links[token].folderId.value in folders then r.RenderFolder?
      else r == NotFound(InvalidLink)
    ensures r.RenderFolder? ==>
      r.children == ChildIds(folders, r.folder.id) && r.files == FilesIn(files, r.folder.id)
    ensures r.RenderFile? ==>
      token in links && !Expired(links[token], now) &&
      links[token].fileId.Some? && links[token].fileId.value in files && r.file == files[links[token].fileId.value]
    ensures r.RenderFolder? ==>
      token in links && !Expired(links[token], now) &&
      !(links[token].fileId.Some? && links[token].fileId.value in files) &&
      links[token].folderId.Some? && links[token].folderId.value in folders &&
      r.folder == folders[links[token].folderId.value]
  {
    if token !in links || Expired(links[token], now) then NotFound(ExpiredOrMissing)
    else
      var link := links[token];
      if link.fileId.Some? && link.fileId.value in files then RenderFile(files[link.fileId.value])
      else if link.folderId.Some? && link.folderId.value in folders then
        var d := folders[link.folderId.value];
        RenderFolder(d, ChildIds(folders, d.id), FilesIn(files, d.id))
      else NotFound(InvalidLink)
  }

  /** `GET /s/:token/download`: only a live link to a file downloads; a file
      with a remote URL is a redirect, any other is served from local disk. */
  function Download(links: map<string, ShareLink>, files: map<int, FileRecord>, token: string, now: int): (r: Response)
    ensures r.NotFound? || r.Redirect? || r.LocalDownload?
    ensures r.NotFound? ==> r == NotFound(DownloadNotFound)
    ensures !r.NotFound? <==>
      token in links && !Expired(links[token], now) &&
      links[token].fileId.Some? && links[token].fileId.value in files
    ensures r.Redirect? ==>
      var f := files[links[token].fileId.value];
      f.url == Some(r.location) && r.location != ""
    ensures r.LocalDownload? ==>
      var f := files[links[token].fileId.value];
      (f.url.None? || f.url == Some("")) && r.path == f.path && r.name == f.originalName
  {
    if token !in links || Expired(links[token], now) || !(links[token].fileId.Some? && links[token].fileId.value in files) then
      NotFound(DownloadNotFound)
    else
      var f := files[links[token].fileId.value];
      if f.url.Some? && f.url.value != "" then Redirect(f.url.value)
      else LocalDownload(f.path, f.originalName)
  }

  // The life of a link

  /** A link to a file is served up to and including its expiry instant and
      refused from then on; it downloads over the same window. */
  lemma FileLinkLifecycle(links: map<string, ShareLink>, files: map<int, FileRecord>, folders: map<int, Folder>,
                          token: string, fileId: int, expiresAt: int, now: int)
    requires fileId in files
    ensures var l := links[token := ShareLink(Some(fileId), None, expiresAt)];
      (View(l, files, folders, token, now) == if now <= expiresAt then RenderFile(files[fileId]) else NotFound(ExpiredOrMissing)) &&
      (Download(l, files, token, now).NotFound? <==> expiresAt < now)
  {
  }

  /** A link to a folder shows that folder, with its child folders and its
      files, while it is live, and never downloads. */
  lemma FolderLinkLifecycle(links: map<string, ShareLink>, files: map<int, FileRecord>, folders: map<int, Folder>,
                            token: string, folderId: int, expiresAt: int, now: int)
    requires folderId in folders
    ensures var l := links[token := ShareLink(None, Some(folderId), expiresAt)];
      var d := folders[folderId];
      (View(l, files, folders, token, now) ==
         if now <= expiresAt then RenderFolder(d, ChildIds(folders, d.id), FilesIn(files, d.id)) else NotFound(ExpiredOrMissing)) &&
      Download(l, files, token, now) == NotFound(DownloadNotFound)
  {
  }

  /** Issuing a link leaves every other token's answers as they were, so two
      links to the same target live side by side until their own expiry. */
  lemma OtherTokensUnaffected(links: map<string, ShareLink>, files: map<int, FileRecord>, folders: map<int, Folder>,
                              token: string, link: ShareLink, other: string, now: int)
    requires other != token
    ensures View(links[token := link], files, folders, other, now) == View(links, files, folders, other, now)
    ensures Download(links[token := link], files, other, now) == Download(links, files, other, now)
  {
  }

  /** A file link created with duration "2h" is served one millisecond
      before its expiry and refused one millisecond after it. */
  lemma TwoHourLink(links: map<string, ShareLink>, files: map<int, FileRecord>, folders: map<int, Folder>,
                    token: string, fileId: int, created: int)
    requires fileId in files
    ensures var exp := created + ParseDuration(Some("2h"));
      var l := links[token := ShareLink(Some(fileId), None, exp)];
      exp == created + 7200000 &&
      View(l, files, folders, token, exp - 1) == RenderFile(files[fileId]) &&
      View(l, files, folders, token, exp) == RenderFile(files[fileId]) &&
      View(l, files, folders, token, exp + 1) == NotFound(ExpiredOrMissing)
  {
    TwoHoursDuration();
  }
}
