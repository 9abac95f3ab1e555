/**
 The content registry (src/HttpRouter.c): files served under URLs, held in memory or reopened,
 and revalidated against the file system. A file system is a map from path to file; a lookup
 sees one file system, so its stat and its read agree.
 */
module Registries {
  import opened Bytes
  import opened Numbers
  import opened Headers
  import opened Dictionaries

  /** time_t and off_t are 64-bit signed. */
  type Time = x: int | -0x8000_0000_0000_0000 <= x < 0x8000_0000_0000_0000
  type Stored = s: bytes | |s| < 0x8000_0000_0000_0000 witness []

  datatype File = File(mtime: Time, data: Stored, readable: bool)

  type FileSystem = map<bytes, File>

  const FS_PATH_SIZE: nat := 256
  const ETAG_SIZE: nat := 40

  datatype ServeMode = ServeStaticResident | ServeStaticStreamed | ServeDynResident | ServeDynStreamed

  /** What revalidation needs (RevalMeta). */
  datatype RevalMeta = RevalMeta(mtime: Time, size: nat, fsPath: bytes, etag: bytes)

  /** A registered file (ContentEntry): streamed entries hold no body, static resident ones no RevalMeta. */
  datatype Entry =
    | StaticResident(body: bytes)
    | DynResident(body: bytes, reval: RevalMeta)
    | StaticStreamed(reval: RevalMeta)
    | DynStreamed(reval: RevalMeta)

  datatype Lookup = Miss | Gone | NotModified(entry: Entry) | Hit(entry: Entry)

  /** The C string a buffer of `size` bytes keeps of `text`. */
  function Kept(text: bytes, size: nat): bytes
    requires size > 0
  {
    if |text| < size then text else text[..size - 1]
  }

  // ---------------------------------------------------------------- entity tags

  /** W/"<mtime>-<size>", both cast to unsigned long and printed in hex. */
  function EtagText(mtime: Time, size: nat): bytes {
    TagOf(Digits(mtime % SIZE_MOD, 16), Digits(size % SIZE_MOD, 16))
  }

  function Etag(mtime: Time, size: nat): bytes {
    Kept(EtagText(mtime, size), ETAG_SIZE)
  }

  lemma HexWidth(n: nat)
    requires n < SIZE_MOD
    ensures |Digits(n, 16)| <= 16
  {
    assert Power(16, 8) == 0x1_0000_0000;
    assert Power(16, 16) == SIZE_MOD;
    DigitsLength(n, 16, 16);
  }

  /** The tag is W/"time-size" in hex, at most 37 bytes long, so the 40-byte field never cuts it. */
  lemma EtagNeverCut(mtime: Time, size: nat)
    ensures Etag(mtime, size) ==
            [87, 47, 34] + Digits(mtime % SIZE_MOD, 16) + [45] + Digits(size % SIZE_MOD, 16) + [34]
    ensures Etag(mtime, size) == EtagText(mtime, size) && |EtagText(mtime, size)| <= 37
  {
    hide Digits;
    HexWidth(mtime % SIZE_MOD);
    HexWidth(size % SIZE_MOD);
  }

  function TagOf(a: bytes, b: bytes): bytes {
    [87, 47, 34] + a + [MINUS] + b + [34]
  }

  lemma TagDash(a: bytes, b: bytes)
    requires AllDigits(a, 16)
    ensures FindByte(TagOf(a, b), MINUS, 0, |TagOf(a, b)|) == 3 + |a|
  {
    DigitBytes(a, 16);
    var s := TagOf(a, b);
    assert forall j :: 3 <= j < 3 + |a| ==> s[j] == a[j - 3];
    FindByteUnique(s, MINUS, 0, |s|, 3 + |a|);
  }

  lemma TagParts(a: bytes, b: bytes, c: bytes, d: bytes)
    requires AllDigits(a, 16) && AllDigits(c, 16) && TagOf(a, b) == TagOf(c, d)
    ensures a == c && b == d
  {
    TagDash(a, b);
    TagDash(c, d);
    var s := TagOf(a, b);
    assert a == s[3..3 + |a|] && c == s[3..3 + |a|];
    assert b == s[4 + |a|..|s| - 1] && d == s[4 + |a|..|s| - 1];
  }

  lemma ResidueExact(m: Time, n: Time)
    ensures m % SIZE_MOD == n % SIZE_MOD <==> m == n
  {
    assert m % SIZE_MOD == if m < 0 then m + SIZE_MOD else m;
    assert n % SIZE_MOD == if n < 0 then n + SIZE_MOD else n;
  }

  lemma TagNumbers(a: nat, b: nat, c: nat, d: nat)
    requires TagOf(Digits(a, 16), Digits(b, 16)) == TagOf(Digits(c, 16), Digits(d, 16))
    ensures a == c && b == d
  {
    hide Digits, TagOf;
    DigitsDenote(a, 16);
    DigitsDenote(c, 16);
    TagParts(Digits(a, 16), Digits(b, 16), Digits(c, 16), Digits(d, 16));
    DigitsInjective(a, c, 16);
    DigitsInjective(b, d, 16);
  }

  lemma Residue(x: int) returns (r: nat)
    ensures r == x % SIZE_MOD && (0 <= x < SIZE_MOD ==> r == x)
  {
    r := x % SIZE_MOD;
  }

  /** Two tags are equal if and only if they were made from the same time and size. */
  lemma EtagExact(m: Time, s: nat, n: Time, t: nat)
    requires s < SIZE_MOD && t < SIZE_MOD
    ensures Etag(m, s) == Etag(n, t) <==> m == n && s == t
  {
    EtagNeverCut(m, s);
    EtagNeverCut(n, t);
    ResidueExact(m, n);
    var a := Residue(m);
    var b := Residue(s);
    var c := Residue(n);
    var d := Residue(t);
    assert EtagText(m, s) == TagOf(Digits(a, 16), Digits(b, 16));
    assert EtagText(n, t) == TagOf(Digits(c, 16), Digits(d, 16));
    hide Digits, TagOf, EtagText;
    if Etag(m, s) == Etag(n, t) { TagNumbers(a, b, c, d); }
  }

  // ---------------------------------------------------------------- loading

  /** reval_fill: the path is kept in 256 bytes. */
  function Fill(file: File, fsPath: bytes): RevalMeta {
    RevalMeta(file.mtime, |file.data|, Kept(fsPath, FS_PATH_SIZE), Etag(file.mtime, |file.data|))
  }

  /** content_entry_dynamic_load. */
  function LoadDynamic(fsPath: bytes, file: File): Option<Entry> {
    if file.readable then Some(DynResident(file.data, Fill(file, fsPath))) else None
  }

  /** The loader of each mode. */
  function Load(fsPath: bytes, file: File, mode: ServeMode): Option<Entry> {
    match mode
    case ServeStaticResident => if file.readable then Some(StaticResident(file.data)) else None
    case ServeDynResident => LoadDynamic(fsPath, file)
    case ServeStaticStreamed => Some(StaticStreamed(Fill(file, fsPath)))
    case ServeDynStreamed => Some(DynStreamed(Fill(file, fsPath)))
  }

  /** What content_registry_add_file would store. */
  function Registered(files: FileSystem, fsPath: bytes, mode: ServeMode): Option<Entry> {
    if fsPath in files then Load(fsPath, files[fsPath], mode) else None
  }

  method AddFile(registry: Dictionary<Entry>, files: FileSystem, fsPath: bytes, url: bytes, mode: ServeMode)
    returns (ok: bool)
    requires registry.Valid()
    modifies registry, registry.bucket, registry.nodes
    ensures registry.Valid() && fresh(registry.nodes - old(registry.nodes))
    ensures ok <==> Registered(files, fsPath, mode).Some?
    ensures registry.contents ==
            if ok then old(registry.contents)[url := Registered(files, fsPath, mode).value] else old(registry.contents)
  {
    if fsPath !in files { return false; }
    var entry := Load(fsPath, files[fsPath], mode);
    if entry.None? { return false; }
    var stored := registry.Insert(url, entry.value);
    return stored == 1;
  }

  // ---------------------------------------------------------------- lookup

  /** "if-none-match" */
  const IF_NONE_MATCH: bytes := [105, 102, 45, 110, 111, 110, 101, 45, 109, 97, 116, 99, 104]
  /** "if-modified-since" */
  const IF_MODIFIED_SINCE: bytes :=
    [105, 102, 45, 109, 111, 100, 105, 102, 105, 101, 100, 45, 115, 105, 110, 99, 101]
  /** "*" */
  const ANY_TAG: bytes := [42]

  /** request_validators_match; `dates` stands for strptime and timegm. */
  predicate ValidatorsMatch(headers: seq<Header>, reval: RevalMeta, dates: bytes -> Option<Time>) {
    match Find(headers, IF_NONE_MATCH)
    case Some(inm) => inm.value == ANY_TAG || inm.value == reval.etag
    case None =>
      match Find(headers, IF_MODIFIED_SINCE)
      case Some(ims) => dates(ims.value).Some? && reval.mtime <= dates(ims.value).value
      case None => false
  }

  predicate Stale(reval: RevalMeta, file: File) {
    file.mtime != reval.mtime || |file.data| != reval.size
  }

  /** The entry a dynamic resident lookup settles on, or none when the file is gone. */
  function Revalidated(entry: Entry, files: FileSystem): (r: Option<Entry>)
    requires entry.DynResident?
    ensures r.Some? ==> r.value.DynResident?
  {
    var path := entry.reval.fsPath;
    if path !in files then None
    else if Stale(entry.reval, files[path]) then LoadDynamic(path, files[path])
    else Some(entry)
  }

  /** content_registry_lookup: its answer, and the entries it leaves. */
  function LookupOf(entries: map<bytes, Entry>, files: FileSystem, dates: bytes -> Option<Time>,
                    headers: seq<Header>, url: bytes)
    : (r: (Lookup, map<bytes, Entry>))
  {
    if url !in entries then (Miss, entries)
    else
      var entry := entries[url];
      if !entry.DynResident? then (Hit(entry), entries)
      else
        match Revalidated(entry, files)
        case None => (Gone, entries)
        case Some(now) =>
          (if ValidatorsMatch(headers, now.reval, dates) then NotModified(now) else Hit(now),
           entries[url := now])
  }

  method ContentLookup(registry: Dictionary<Entry>, files: FileSystem, dates: bytes -> Option<Time>,
                       headers: seq<Header>, url: bytes)
    returns (r: Lookup)
    requires registry.Valid()
    modifies registry, registry.bucket, registry.nodes
    ensures registry.Valid() && fresh(registry.nodes - old(registry.nodes))
    ensures (r, registry.contents) == LookupOf(old(registry.contents), files, dates, headers, url)
  {
    var found := registry.Find(url);
    if found.None? { return Miss; }
    var entry := found.value;
    if !entry.DynResident? { return Hit(entry); }
    var path := entry.reval.fsPath;
    assert registry.contents == registry.contents[url := entry];
    if path !in files { return Gone; }
    if Stale(entry.reval, files[path]) {
      var again := LoadDynamic(path, files[path]);
      if again.None? { return Gone; }
      var _ := registry.Insert(url, again.value);
      entry := again.value;
    }
    return if ValidatorsMatch(headers, entry.reval, dates) then NotModified(entry) else Hit(entry);
  }

  // ---------------------------------------------------------------- histories

  datatype Event =
    | Change(files: FileSystem)
    | Register(fsPath: bytes, url: bytes, mode: ServeMode)
    | Serve(headers: seq<Header>, url: bytes)

  datatype State = State(files: FileSystem, entries: map<bytes, Entry>)

  function Apply(s: State, e: Event, dates: bytes -> Option<Time>): State {
    match e
    case Change(files) => s.(files := files)
    case Register(fsPath, url, mode) =>
      (match Registered(s.files, fsPath, mode)
       case None => s
       case Some(entry) => s.(entries := s.entries[url := entry]))
    case Serve(headers, url) => s.(entries := LookupOf(s.entries, s.files, dates, headers, url).1)
  }

  /** The registry and the file system after a history, from an empty registry. */
  function After(h: seq<Event>, dates: bytes -> Option<Time>): State {
    if h == [] then State(map[], map[]) else Apply(After(h[..|h| - 1], dates), h[|h| - 1], dates)
  }

  /** The answer to a request after a history. */
  function Answer(h: seq<Event>, dates: bytes -> Option<Time>, headers: seq<Header>, url: bytes): Lookup {
    var s := After(h, dates);
    LookupOf(s.entries, s.files, dates, headers, url).0
  }

  /** The file system after the first `i` events. */
  function FilesAt(h: seq<Event>, i: nat): FileSystem
    requires i <= |h|
  {
    if i == 0 then map[] else if h[i - 1].Change? then h[i - 1].files else FilesAt(h, i - 1)
  }

  /** Two versions of a path with the same time and size have the same content. */
  ghost predicate Agree(f: FileSystem, g: FileSystem, path: bytes) {
    path in f && path in g && f[path].mtime == g[path].mtime && |f[path].data| == |g[path].data|
    ==> f[path].data == g[path].data
  }

  /** No change of a content keeps both its time and its size. */
  ghost predicate ChangesShow(h: seq<Event>) {
    forall i: nat, j: nat, path :: i <= |h| && j <= |h| ==> Agree(FilesAt(h, i), FilesAt(h, j), path)
  }

  /** Every registered path fits its field. */
  ghost predicate PathsFit(h: seq<Event>) {
    forall i :: 0 <= i < |h| && h[i].Register? ==> |h[i].fsPath| < FS_PATH_SIZE
  }

  /** A dynamic resident entry is a copy of its file. */
  predicate CopyOf(entry: Entry, files: FileSystem) {
    && entry.DynResident? && entry.reval.fsPath in files
    && var file := files[entry.reval.fsPath];
    && entry.reval.mtime == file.mtime && entry.reval.size == |file.data| && entry.body == file.data
    && entry.reval.etag == Etag(file.mtime, |file.data|)
  }

  /** A dynamic resident entry is a copy of some version its file had during the history. */
  ghost predicate Sourced(entry: Entry, h: seq<Event>) {
    entry.DynResident? ==> exists i: nat :: i <= |h| && CopyOf(entry, FilesAt(h, i))
  }

  ghost predicate AllSourced(h: seq<Event>, entries: map<bytes, Entry>) {
    forall url :: url in entries ==> Sourced(entries[url], h)
  }

  lemma {:induction false} FilesPrefix(h: seq<Event>, e: Event, i: nat)
    requires i <= |h|
    ensures FilesAt(h + [e], i) == FilesAt(h, i)
  {
    if i > 0 {
      FilesPrefix(h, e, i - 1);
    }
  }

  lemma {:induction false} FilesAfter(h: seq<Event>, dates: bytes -> Option<Time>)
    ensures After(h, dates).files == FilesAt(h, |h|)
    decreases |h|
  {
    if h != [] {
      var g := h[..|h| - 1];
      FilesAfter(g, dates);
      assert h == g + [h[|h| - 1]];
      FilesPrefix(g, h[|h| - 1], |g|);
    }
  }

  lemma SourcedLater(entry: Entry, h: seq<Event>, e: Event)
    requires Sourced(entry, h)
    ensures Sourced(entry, h + [e])
  {
    if entry.DynResident? {
      var i: nat :| i <= |h| && CopyOf(entry, FilesAt(h, i));
      FilesPrefix(h, e, i);
      assert CopyOf(entry, FilesAt(h + [e], i));
    }
  }

  lemma LoadedIsCopy(path: bytes, files: FileSystem)
    requires |path| < FS_PATH_SIZE && path in files && files[path].readable
    ensures CopyOf(LoadDynamic(path, files[path]).value, files)
  {
  }

  predicate Fits(entry: Entry) {
    entry.DynResident? ==> |entry.reval.fsPath| < FS_PATH_SIZE
  }

  ghost predicate AllFit(entries: map<bytes, Entry>) {
    forall url :: url in entries ==> Fits(entries[url])
  }

  /** Revalidation settles on a copy of the file as it is now. */
  lemma RevalidatedIsCopy(entry: Entry, h: seq<Event>)
    requires ChangesShow(h) && entry.DynResident? && Sourced(entry, h) && Fits(entry)
    ensures var now := Revalidated(entry, FilesAt(h, |h|));
      now.Some? ==> CopyOf(now.value, FilesAt(h, |h|)) && now.value.reval.fsPath == entry.reval.fsPath
  {
    var path := entry.reval.fsPath;
    var files := FilesAt(h, |h|);
    if path in files {
      if Stale(entry.reval, files[path]) {
        if files[path].readable { LoadedIsCopy(path, files); }
      } else {
        var i: nat :| i <= |h| && CopyOf(entry, FilesAt(h, i));
        assert Agree(FilesAt(h, i), FilesAt(h, |h|), path);
      }
    }
  }

  lemma PrefixHistory(h: seq<Event>, e: Event)
    requires ChangesShow(h + [e]) && PathsFit(h + [e])
    ensures ChangesShow(h) && PathsFit(h)
  {
    forall i: nat, j: nat, path | i <= |h| && j <= |h| ensures Agree(FilesAt(h, i), FilesAt(h, j), path) {
      FilesPrefix(h, e, i);
      FilesPrefix(h, e, j);
      assert Agree(FilesAt(h + [e], i), FilesAt(h + [e], j), path);
    }
    forall i | 0 <= i < |h| && h[i].Register? ensures |h[i].fsPath| < FS_PATH_SIZE {
      assert (h + [e])[i] == h[i];
    }
  }

  lemma SourcedNow(entry: Entry, h: seq<Event>)
    requires entry.DynResident? ==> CopyOf(entry, FilesAt(h, |h|))
    ensures Sourced(entry, h)
  {
  }

  lemma UpdateSourced(h: seq<Event>, entries: map<bytes, Entry>, url: bytes, entry: Entry)
    requires AllSourced(h, entries) && AllFit(entries) && Sourced(entry, h) && Fits(entry)
    ensures AllSourced(h, entries[url := entry]) && AllFit(entries[url := entry])
  {
  }

  lemma RegisterSourced(h: seq<Event>, s: State, fsPath: bytes, url: bytes, mode: ServeMode,
                        dates: bytes -> Option<Time>)
    requires AllSourced(h, s.entries) && AllFit(s.entries) && s.files == FilesAt(h, |h|)
    requires |fsPath| < FS_PATH_SIZE
    ensures var s' := Apply(s, Register(fsPath, url, mode), dates); AllSourced(h, s'.entries) && AllFit(s'.entries)
  {
    hide Etag, CopyOf, AllSourced, AllFit, Sourced;
    if Registered(s.files, fsPath, mode).Some? {
      var entry := Registered(s.files, fsPath, mode).value;
      if mode == ServeDynResident { LoadedIsCopy(fsPath, s.files); }
      SourcedNow(entry, h);
      UpdateSourced(h, s.entries, url, entry);
    }
  }

  lemma CopySourced(h: seq<Event>, entries: map<bytes, Entry>, url: bytes, now: Option<Entry>)
    requires ChangesShow(h) && AllSourced(h, entries) && AllFit(entries)
    requires url in entries && entries[url].DynResident? && now == Revalidated(entries[url], FilesAt(h, |h|))
    requires Sourced(entries[url], h) && Fits(entries[url])
    ensures now.Some? ==> AllSourced(h, entries[url := now.value]) && AllFit(entries[url := now.value])
  {
    RevalidatedIsCopy(entries[url], h);
    if now.Some? {
      SourcedNow(now.value, h);
      UpdateSourced(h, entries, url, now.value);
    }
  }

  lemma ServeSourced(h: seq<Event>, s: State, headers: seq<Header>, url: bytes, dates: bytes -> Option<Time>)
    requires ChangesShow(h) && AllSourced(h, s.entries) && AllFit(s.entries) && s.files == FilesAt(h, |h|)
    ensures var s' := Apply(s, Serve(headers, url), dates); AllSourced(h, s'.entries) && AllFit(s'.entries)
  {
    hide Etag, CopyOf, ValidatorsMatch;
    if url in s.entries && s.entries[url].DynResident? {
      assert Sourced(s.entries[url], h) && Fits(s.entries[url]);
      CopySourced(h, s.entries, url, Revalidated(s.entries[url], s.files));
    }
  }

  /** Every dynamic resident entry of every history is a copy of a version its file had. */
  lemma {:induction false} HistorySourced(h: seq<Event>, dates: bytes -> Option<Time>)
    requires ChangesShow(h) && PathsFit(h)
    ensures AllSourced(h, After(h, dates).entries) && AllFit(After(h, dates).entries)
    decreases |h|
  {
    if h != [] {
      var g, e := h[..|h| - 1], h[|h| - 1];
      assert h == g + [e];
      PrefixHistory(g, e);
      HistorySourced(g, dates);
      FilesAfter(g, dates);
      match e {
        case Change(_) =>
        case Register(fsPath, url, mode) => RegisterSourced(g, After(g, dates), fsPath, url, mode, dates);
        case Serve(headers, url) => ServeSourced(g, After(g, dates), headers, url, dates);
      }
      var entries := After(h, dates).entries;
      forall url | url in entries ensures Sourced(entries[url], h) {
        SourcedLater(entries[url], g, e);
      }
    }
  }

  // ---------------------------------------------------------------- coherence

  /**
   After every history of file changes, registrations and lookups, a dynamic resident answer
   carries the time, size, tag and content its file has now; a URL that is registered as
   dynamic resident is answered "gone" exactly when its file is absent, or has changed and
   cannot be read; and no other URL's entry is touched.
   */
  lemma RegistryCoherent(h: seq<Event>, dates: bytes -> Option<Time>, headers: seq<Header>, url: bytes)
    requires ChangesShow(h) && PathsFit(h)
    ensures var s := After(h, dates);
      var (answer, entries) := LookupOf(s.entries, s.files, dates, headers, url);
      && ((answer.Hit? || answer.NotModified?) && answer.entry.DynResident? ==> CopyOf(answer.entry, s.files))
      && (answer.NotModified? ==> answer.entry.DynResident?)
      && (answer.Miss? <==> url !in s.entries)
      && (answer.Gone? <==>
          && url in s.entries && s.entries[url].DynResident?
          && var path := s.entries[url].reval.fsPath;
          && (path !in s.files || (Stale(s.entries[url].reval, s.files[path]) && !s.files[path].readable)))
      && entries.Keys == s.entries.Keys
      && forall other :: other in s.entries && other != url ==> entries[other] == s.entries[other]
  {
    HistorySourced(h, dates);
    FilesAfter(h, dates);
    var entries := After(h, dates).entries;
    if url in entries && entries[url].DynResident? {
      RevalidatedIsCopy(entries[url], h);
    }
  }

  /** One file, registered under a URL. */
  function OneFile(f: FileSystem, path: bytes, url: bytes): seq<Event> {
    [Change(f)] + [Register(path, url, ServeDynResident)]
  }

  /** The history of one file: registered as `f` has it, then changed to what `g` has. */
  function Edit(f: FileSystem, path: bytes, url: bytes, g: FileSystem): seq<Event> {
    OneFile(f, path, url) + [Change(g)]
  }

  lemma AfterSnoc(h: seq<Event>, e: Event, dates: bytes -> Option<Time>)
    ensures After(h + [e], dates) == Apply(After(h, dates), e, dates)
  {
    assert (h + [e])[..|h|] == h;
  }

  lemma AfterRegister(f: FileSystem, path: bytes, url: bytes, dates: bytes -> Option<Time>)
    requires path in f && f[path].readable
    ensures After(OneFile(f, path, url), dates) ==
            State(f, map[url := LoadDynamic(path, f[path]).value])
  {
    AfterSnoc([], Change(f), dates);
    assert [] + [Change(f)] == [Change(f)];
    AfterSnoc([Change(f)], Register(path, url, ServeDynResident), dates);
  }

  /**
   A change goes unnoticed exactly when it keeps time and size: after the file of a registered
   URL changed, a lookup answers with its present content if and only if the two versions
   agree, that is, have the same content if they have the same time and size.
   */
  lemma LookupFreshExactly(f: FileSystem, path: bytes, url: bytes, g: FileSystem, headers: seq<Header>,
                           dates: bytes -> Option<Time>)
    requires |path| < FS_PATH_SIZE && path in f && f[path].readable && path in g && g[path].readable
    ensures var answer := Answer(Edit(f, path, url, g), dates, headers, url);
      && (answer.Hit? || answer.NotModified?) && answer.entry.DynResident?
      && (answer.entry.body == g[path].data <==> Agree(f, g, path))
  {
    AfterRegister(f, path, url, dates);
    AfterSnoc(OneFile(f, path, url), Change(g), dates);
  }

  /** Such a history: an edit in place, within the second and of the same length. */
  lemma UnseenChange(f: FileSystem, path: bytes, url: bytes, data: Stored, dates: bytes -> Option<Time>)
    requires |path| < FS_PATH_SIZE && path in f && f[path].readable
    requires |data| == |f[path].data| && data != f[path].data
    ensures var g := f[path := f[path].(data := data)];
      Answer(Edit(f, path, url, g), dates, [], url) == Hit(LoadDynamic(path, f[path]).value)
  {
    var g := f[path := f[path].(data := data)];
    AfterRegister(f, path, url, dates);
    AfterSnoc(OneFile(f, path, url), Change(g), dates);
  }

  /** The answer is the content `data`, or tells the client that it holds it. */
  predicate Carries(answer: Lookup, data: bytes) {
    (answer.Hit? || answer.NotModified?) && answer.entry.DynResident? && answer.entry.body == data
  }

  /**
   A path of more than 255 bytes is cut when it is stored, and another file is looked at from
   then on. A lookup right after the registration carries the content of the registered file
   if and only if the path fits, or the cut path names a file of the same time and size, or a
   readable one of the same content.
   */
  lemma PathServedExactly(f: FileSystem, path: bytes, url: bytes, headers: seq<Header>, dates: bytes -> Option<Time>)
    requires path in f && f[path].readable
    ensures Carries(Answer(OneFile(f, path, url), dates, headers, url), f[path].data) <==>
            || |path| < FS_PATH_SIZE
            || (var cut := path[..FS_PATH_SIZE - 1];
                && cut in f
                && (|| (f[cut].mtime == f[path].mtime && |f[cut].data| == |f[path].data|)
                    || (f[cut].readable && f[cut].data == f[path].data)))
  {
    AfterRegister(f, path, url, dates);
  }

  /** Such a registration: no file has the cut path, and the one just registered is gone. */
  lemma LongPathGone(f: FileSystem, path: bytes, url: bytes, headers: seq<Header>, dates: bytes -> Option<Time>)
    requires path in f && f[path].readable && |path| >= FS_PATH_SIZE && path[..FS_PATH_SIZE - 1] !in f
    ensures Answer(OneFile(f, path, url), dates, headers, url).Gone?
  {
    AfterRegister(f, path, url, dates);
  }

  /** After `h`, a request is answered with `entry` or with its tag alone. */
  ghost predicate Serves(h: seq<Event>, dates: bytes -> Option<Time>, headers: seq<Header>, url: bytes, entry: Entry) {
    entry.DynResident? && Answer(h, dates, headers, url) in {Hit(entry), NotModified(entry)}
  }

  lemma ServedIsCopy(h: seq<Event>, dates: bytes -> Option<Time>, headers: seq<Header>, url: bytes, entry: Entry)
    requires ChangesShow(h) && PathsFit(h) && Serves(h, dates, headers, url, entry)
    ensures CopyOf(entry, FilesAt(h, |h|))
  {
    RegistryCoherent(h, dates, headers, url);
    FilesAfter(h, dates);
  }

  lemma {:induction false} FilesTake(h: seq<Event>, i: nat, j: nat)
    requires j <= i <= |h|
    ensures FilesAt(h[..i], j) == FilesAt(h, j)
  {
    if j > 0 {
      FilesTake(h, i, j - 1);
    }
  }

  lemma TakeHistory(h: seq<Event>, i: nat)
    requires ChangesShow(h) && PathsFit(h) && i <= |h|
    ensures ChangesShow(h[..i]) && PathsFit(h[..i])
  {
    forall j: nat, k: nat, path | j <= i && k <= i ensures Agree(FilesAt(h[..i], j), FilesAt(h[..i], k), path) {
      FilesTake(h, i, j);
      FilesTake(h, i, k);
      assert Agree(FilesAt(h, j), FilesAt(h, k), path);
    }
  }

  lemma TagIsNoWildcard(mtime: Time, size: nat)
    ensures Etag(mtime, size) != ANY_TAG
  {
    EtagNeverCut(mtime, size);
    assert EtagText(mtime, size)[0] == 87;
  }

  /** With a tag to compare, the validators match exactly when time and size are the same. */
  lemma TagMatch(headers: seq<Header>, held: RevalMeta, now: RevalMeta, dates: bytes -> Option<Time>)
    requires Find(headers, IF_NONE_MATCH).Some? && Find(headers, IF_NONE_MATCH).value.value == held.etag
    requires held.size < SIZE_MOD && held.etag == Etag(held.mtime, held.size)
    requires now.size < SIZE_MOD && now.etag == Etag(now.mtime, now.size)
    ensures ValidatorsMatch(headers, now, dates) <==> held.mtime == now.mtime && held.size == now.size
  {
    TagIsNoWildcard(held.mtime, held.size);
    EtagExact(held.mtime, held.size, now.mtime, now.size);
  }

  /**
   Conditional requests are sound and complete over every history. A client was served `held`
   at some point and later asks for the same URL with that entity tag: the entry it is
   answered from is the file as it is now, the answer is "not modified" if and only if the
   file has the time and size the held one had, and in that case, unless the URL was given to
   another path in between, the content the client holds is the file's present content.
   */
  lemma ConditionalGetCoherent(h: seq<Event>, i: nat, dates: bytes -> Option<Time>, url: bytes,
                               asked: seq<Header>, headers: seq<Header>, held: Entry, now: Entry)
    requires ChangesShow(h) && PathsFit(h) && i <= |h|
    requires Serves(h[..i], dates, asked, url, held) && Serves(h, dates, headers, url, now)
    requires Find(headers, IF_NONE_MATCH).Some? && Find(headers, IF_NONE_MATCH).value.value == held.reval.etag
    ensures CopyOf(now, After(h, dates).files)
    ensures Answer(h, dates, headers, url).NotModified? <==>
            held.reval.mtime == now.reval.mtime && held.reval.size == now.reval.size
    ensures Answer(h, dates, headers, url).NotModified? && held.reval.fsPath == now.reval.fsPath ==>
              held.body == now.body
  {
    TakeHistory(h, i);
    ServedIsCopy(h[..i], dates, asked, url, held);
    ServedIsCopy(h, dates, headers, url, now);
    FilesTake(h, i, i);
    FilesAfter(h, dates);
    TagMatch(headers, held.reval, now.reval, dates);
    AnswerIsMatch(h, dates, headers, url, now);
    assert Agree(FilesAt(h, i), FilesAt(h, |h|), held.reval.fsPath);
  }

  lemma AnswerIsMatch(h: seq<Event>, dates: bytes -> Option<Time>, headers: seq<Header>, url: bytes, now: Entry)
    requires Serves(h, dates, headers, url, now)
    ensures Answer(h, dates, headers, url).NotModified? <==> ValidatorsMatch(headers, now.reval, dates)
  {
  }

  /**
   A URL given to another path: a client that holds the first file is told "not modified"
   if and only if the second has the same time and size, whatever its content.
   */
  lemma ReregisteredExactly(f: FileSystem, p: bytes, q: bytes, url: bytes, headers: seq<Header>,
                            dates: bytes -> Option<Time>)
    requires p in f && f[p].readable && q in f && f[q].readable && |q| < FS_PATH_SIZE
    requires Find(headers, IF_NONE_MATCH).Some?
    requires Find(headers, IF_NONE_MATCH).value.value == Etag(f[p].mtime, |f[p].data|)
    ensures var first := OneFile(f, p, url);
      var answer := Answer(first + [Register(q, url, ServeDynResident)], dates, headers, url);
      && (answer.Hit? || answer.NotModified?) && answer.entry == LoadDynamic(q, f[q]).value
      && (answer.NotModified? <==> f[p].mtime == f[q].mtime && |f[p].data| == |f[q].data|)
  {
    var first := OneFile(f, p, url);
    AfterRegister(f, p, url, dates);
    AfterSnoc(first, Register(q, url, ServeDynResident), dates);
    TagMatch(headers, Fill(f[p], p), Fill(f[q], q), dates);
  }

  // ---------------------------------------------------------------- what is registered

  /** A file as it was when it was registered. */
  datatype Registration = Registration(path: bytes, mode: ServeMode, file: File)

  /** What a registration stores: the file is there, and readable if it is to be held in memory. */
  function Stores(files: FileSystem, path: bytes, mode: ServeMode): Option<Registration> {
    if path in files && (mode in {ServeStaticResident, ServeDynResident} ==> files[path].readable)
    then Some(Registration(path, mode, files[path])) else None
  }

  /** The last registration under a URL that stored something. */
  ghost function LastStored(h: seq<Event>, url: bytes): Option<Registration> {
    if h == [] then None
    else
      var g, e := h[..|h| - 1], h[|h| - 1];
      if e.Register? && e.url == url && Stores(FilesAt(g, |g|), e.fsPath, e.mode).Some?
      then Stores(FilesAt(g, |g|), e.fsPath, e.mode)
      else LastStored(g, url)
  }

  /** What is kept of a path in its 256 bytes. */
  function CutPath(path: bytes): bytes { if |path| <= 255 then path else path[..255] }

  /** The entry has the mode of its registration, and the content or the path. */
  predicate IsOf(entry: Entry, r: Registration) {
    match r.mode
    case ServeStaticResident => entry == StaticResident(r.file.data)
    case ServeDynResident =>
      entry.DynResident? && entry.reval.fsPath == CutPath(r.path)
      && entry.reval.etag == Etag(entry.reval.mtime, entry.reval.size)
    case ServeStaticStreamed => entry.StaticStreamed? && IsMeta(entry.reval, r)
    case ServeDynStreamed => entry.DynStreamed? && IsMeta(entry.reval, r)
  }

  /** Time, size, path and tag of the file as it was registered. */
  predicate IsMeta(reval: RevalMeta, r: Registration) {
    && reval.mtime == r.file.mtime && reval.size == |r.file.data| && reval.fsPath == CutPath(r.path)
    && reval.etag == Etag(r.file.mtime, |r.file.data|)
  }

  lemma RegisterIs(files: FileSystem, path: bytes, mode: ServeMode)
    ensures Registered(files, path, mode).Some? <==> Stores(files, path, mode).Some?
    ensures Stores(files, path, mode).Some? ==>
              IsOf(Registered(files, path, mode).value, Stores(files, path, mode).value)
  {
    hide Etag;
  }

  /** Revalidation keeps the mode and the path, and the tag is right. */
  lemma RevalidatedIs(entry: Entry, r: Registration, files: FileSystem)
    requires entry.DynResident? && IsOf(entry, r)
    ensures var now := Revalidated(entry, files); now.Some? ==> IsOf(now.value, r)
  {
    hide Etag;
  }

  /** A URL has an entry exactly when something was stored under it, and then it is of the last of these. */
  ghost predicate Told(h: seq<Event>, entries: map<bytes, Entry>, url: bytes) {
    match LastStored(h, url)
    case None => url !in entries
    case Some(r) => url in entries && IsOf(entries[url], r)
  }

  lemma ToldNext(g: seq<Event>, e: Event, dates: bytes -> Option<Time>, url: bytes)
    requires Told(g, After(g, dates).entries, url)
    ensures Told(g + [e], After(g + [e], dates).entries, url)
  {
    hide IsOf, FilesAt, Registered, Stores, Revalidated, ValidatorsMatch;
    AfterSnoc(g, e, dates);
    FilesAfter(g, dates);
    assert (g + [e])[..|g|] == g;
    var s := After(g, dates);
    match e
    case Change(_) =>
    case Register(path, _, mode) => RegisterIs(s.files, path, mode);
    case Serve(_, u) =>
      if u == url && url in s.entries && s.entries[url].DynResident? {
        RevalidatedIs(s.entries[url], LastStored(g, url).value, s.files);
      }
  }

  /**
   Every entry of every history is that of the last registration under its URL that found a
   file: of its mode, with the file's path as far as it is kept, for a static resident one with
   the content the file had then, and for a streamed one with its time, size and tag.
   */
  lemma {:induction false} EntriesAreRegistered(h: seq<Event>, dates: bytes -> Option<Time>, url: bytes)
    ensures Told(h, After(h, dates).entries, url)
    decreases |h|
  {
    hide Told;
    if h == [] {
      NothingTold(dates, url);
    } else {
      var g := h[..|h| - 1];
      assert h == g + [h[|h| - 1]];
      EntriesAreRegistered(g, dates, url);
      ToldNext(g, h[|h| - 1], dates, url);
    }
  }

  lemma NothingTold(dates: bytes -> Option<Time>, url: bytes)
    ensures Told([], After([], dates).entries, url)
  {
  }

  /** A static resident URL answers with the content its file had when it was registered, whatever happened since. */
  lemma StaticServed(h: seq<Event>, dates: bytes -> Option<Time>, headers: seq<Header>, url: bytes)
    requires LastStored(h, url).Some? && LastStored(h, url).value.mode == ServeStaticResident
    ensures Answer(h, dates, headers, url) == Hit(StaticResident(LastStored(h, url).value.file.data))
  {
    EntriesAreRegistered(h, dates, url);
  }

  // ---------------------------------------------------------------- conditional requests

  /** The file of a dynamic resident URL as it is now, if it is there. */
  ghost function PresentFile(h: seq<Event>, dates: bytes -> Option<Time>, url: bytes): Option<File>
    requires LastStored(h, url).Some?
  {
    var files, path := After(h, dates).files, CutPath(LastStored(h, url).value.path);
    if path in files then Some(files[path]) else None
  }

  /**
   Conditional requests, over every history of any changes and paths. A dynamic resident URL
   that is not gone is answered "not modified", rather than with an entry, if and only if: the
   request has a tag, and it is "*" or that of the present file; or it has no tag but a date
   that can be read, and the present file is not younger. Without either it never is.
   */
  lemma NotModifiedExactly(h: seq<Event>, dates: bytes -> Option<Time>, headers: seq<Header>, url: bytes)
    requires LastStored(h, url).Some? && LastStored(h, url).value.mode == ServeDynResident
    ensures var answer, file := Answer(h, dates, headers, url), PresentFile(h, dates, url);
      var tag, since := Find(headers, IF_NONE_MATCH), Find(headers, IF_MODIFIED_SINCE);
      && (answer.Hit? || answer.NotModified? || answer.Gone?)
      && (!answer.Gone? ==>
            && file.Some?
            && (tag.Some? ==>
                  (answer.NotModified? <==>
                     tag.value.value == ANY_TAG || tag.value.value == Etag(file.value.mtime, |file.value.data|)))
            && (tag.None? && since.Some? ==>
                  (answer.NotModified? <==>
                     var t := dates(since.value.value); t.Some? && file.value.mtime <= t.value))
            && (tag.None? && since.None? ==> answer.Hit?))
  {
    EntriesAreRegistered(h, dates, url);
    hide Etag;
  }

  /**
   A client that sends back the time of the file it was served is told "not modified" if and
   only if the file has not become younger: also when an older one has taken its place.
   */
  lemma DateToldExactly(f: FileSystem, path: bytes, url: bytes, g: FileSystem, headers: seq<Header>,
                        dates: bytes -> Option<Time>)
    requires |path| < FS_PATH_SIZE && path in f && f[path].readable && path in g && g[path].readable
    requires Find(headers, IF_NONE_MATCH).None? && Find(headers, IF_MODIFIED_SINCE).Some?
    requires dates(Find(headers, IF_MODIFIED_SINCE).value.value) == Some(f[path].mtime)
    ensures Answer(Edit(f, path, url, g), dates, headers, url).NotModified? <==> g[path].mtime <= f[path].mtime
  {
    AfterRegister(f, path, url, dates);
    AfterSnoc(OneFile(f, path, url), Change(g), dates);
  }
}
