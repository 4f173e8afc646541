/**
 * folder.api v1.0.1: classifies the links of a web server's directory listing
 * into folders and files. The listing page, the `fetch` of its headers and the
 * DOM queries are inputs here: a link carries its URL and the metadata cells
 * the per-server parsers would read next to it.
 */
module FolderApi {
  import opened JsText

  // ---------------------------------------------------------------------------
  // URL classification

  datatype UrlKind = Hidden | Folder | File | Unknown

  /** `url[url.length - 1] === '/'`: the empty string is not a folder. */
  predicate IsFolder(url: string) {
    |url| > 0 && url[|url| - 1] == '/'
  }

  predicate IsFile(url: string) {
    !IsFolder(url)
  }

  /**
   * `/\/\..+$/i` matches at index `i`: a "/." followed by at least one
   * character, and no line terminator from there to the end of the string.
   */
  predicate HiddenMatchAt(url: string, i: int) {
    && 0 <= i && i + 2 < |url|
    && url[i] == '/' && url[i + 1] == '.'
    && forall k | i + 2 <= k < |url| :: !IsLineTerminator(url[k])
  }

  predicate IsHiddenFileOrFolder(url: string) {
    exists i | 0 <= i < |url| :: HiddenMatchAt(url, i)
  }

  /** 'hidden' takes precedence over 'folder', and every other URL is a 'file'. */
  function UrlType(url: string): (kind: UrlKind)
    ensures kind != Unknown
    ensures kind == Hidden <==> IsHiddenFileOrFolder(url)
    ensures kind == Folder <==> !IsHiddenFileOrFolder(url) && IsFolder(url)
  {
    if IsHiddenFileOrFolder(url) then Hidden
    else if IsFolder(url) then Folder
    else if IsFile(url) then File
    else Unknown
  }

  /** A dot-folder is 'hidden', not 'folder', and so is any URL containing "/../". */
  lemma HiddenBeatsFolder()
    ensures UrlType("http://h/.git/") == Hidden
    ensures UrlType("http://h/a/../") == Hidden
    ensures UrlType("http://h/a/") == Folder
    ensures UrlType("http://h/.x\n") == File
  {
    assert HiddenMatchAt("http://h/.git/", 8);
    assert HiddenMatchAt("http://h/a/../", 10);
    var u := "http://h/.x\n";
    forall i | 0 <= i < |u| ensures !HiddenMatchAt(u, i) {
      assert IsLineTerminator(u[|u| - 1]);
    }
  }

  // ---------------------------------------------------------------------------
  // Path manipulation

  /** The prefix of `url` through its last '/', or "/" when it has none. */
  function Dirname(url: string): (r: string)
    ensures IsFolder(r)
  {
    match LastIndexOf(url, '/')
    case None => "/"
    case Some(k) => url[..k + 1]
  }

  /** The text after the last '/', or the whole of `url` when it has none. */
  function Basename(url: string): string {
    match LastIndexOf(url, '/')
    case None => url
    case Some(k) => url[k + 1..]
  }

  /** Popping the last piece of a split keeps exactly the pieces before the last separator. */
  lemma PopSplit(s: string)
    ensures Pop(Split(s, '/')) == match LastIndexOf(s, '/') case None => [] case Some(k) => Split(s[..k], '/')
  {
    match LastIndexOf(s, '/')
    case None =>
      SplitWithoutSeparator(s, '/');
    case Some(k) =>
      assert s == s[..k] + ['/'] + s[k + 1..];
      SplitAtLast(s[..k], '/', s[k + 1..]);
  }

  /** `split('/')`, one `pop()`, `join('/')` and a trailing '/': the directory part. */
  lemma JoinPopSplit(s: string)
    ensures Join(Pop(Split(s, '/')), '/') + "/" == Dirname(s)
  {
    PopSplit(s);
    var parts := Pop(Split(s, '/'));
    match LastIndexOf(s, '/')
    case None =>
      assert parts == [];
      assert Join(parts, '/') == "";
    case Some(k) =>
      assert parts == Split(s[..k], '/');
      JoinSplit(s[..k], '/');
      assert Join(parts, '/') == s[..k];
      PrefixThrough(s, k);
  }

  /** The prefix through index `k` is the prefix before it and the character at it. */
  lemma PrefixThrough(s: string, k: nat)
    requires k < |s|
    ensures s[..k + 1] == s[..k] + [s[k]]
  {
  }

  /**
   * `parentFolder`: drops the last two '/'-separated pieces and appends '/'.
   * For a folder URL that is the folder above it; with at most one '/' it is "/".
   */
  function ParentFolder(url: string): (r: string)
    ensures r == match LastIndexOf(url, '/') case None => "/" case Some(k) => Dirname(url[..k])
    ensures IsFolder(r)
  {
    PopSplit(url);
    match LastIndexOf(url, '/')
    case None => assert Pop(Pop(Split(url, '/'))) == []; "/"
    case Some(k) => JoinPopSplit(url[..k]); Join(Pop(Pop(Split(url, '/'))), '/') + "/"
  }

  /**
   * `urlToFoldername`: the piece before the last '/', that is the text between
   * the last two '/'; undefined (None) when the URL has no '/'.
   */
  function UrlToFoldername(url: string): (r: Option<string>)
    ensures r == match LastIndexOf(url, '/') case None => None case Some(k) => Some(Basename(url[..k]))
    ensures IsFolder(url) ==> r.Some?
  {
    FoldernamePiece(url);
    var pieces := Split(url, '/');
    if |pieces| >= 2 then Some(pieces[|pieces| - 2]) else None
  }

  /** The second-to-last piece of a split is the last piece of the text before the last '/'. */
  lemma FoldernamePiece(url: string)
    ensures var pieces := Split(url, '/');
      (if |pieces| >= 2 then Some(pieces[|pieces| - 2]) else None)
      == match LastIndexOf(url, '/') case None => None case Some(k) => Some(Basename(url[..k]))
  {
    var pieces := Split(url, '/');
    match LastIndexOf(url, '/')
    case None =>
      SplitWithoutSeparator(url, '/');
      assert |pieces| == 1;
    case Some(k) =>
      var before, after := url[..k], url[k + 1..];
      assert url == before + ['/'] + after;
      SplitAtLast(before, '/', after);
      var head := Split(before, '/');
      SecondToLast(head, after);
      SplitLastPiece(before, '/');
  }

  /** Appending one piece makes the old last piece the second-to-last. */
  lemma SecondToLast(head: seq<string>, last: string)
    requires |head| >= 1
    ensures var pieces := head + [last]; |pieces| >= 2 && pieces[|pieces| - 2] == head[|head| - 1]
  {
  }

  /** `/\/([^/]+)$/` matches at index `i`: a '/' followed by one or more non-'/' characters up to the end. */
  predicate FilenameMatchAt(url: string, i: int) {
    0 <= i < |url| - 1 && url[i] == '/' && '/' !in url[i + 1..]
  }

  /**
   * `urlToFilename`: the captured text after the last '/' when the pattern matches;
   * otherwise (no '/', or a trailing '/') the URL itself.
   */
  function UrlToFilename(url: string): (r: string)
    ensures forall i | FilenameMatchAt(url, i) :: r == url[i + 1..]
    ensures (forall i :: !FilenameMatchAt(url, i)) ==> r == url
  {
    match LastIndexOf(url, '/')
    case None => url
    case Some(k) =>
      if k + 1 < |url| then
        assert FilenameMatchAt(url, k);
        url[k + 1..]
      else url
  }

  lemma FilenameExamples()
    ensures UrlToFilename("http://h/v/clip.mp4") == "clip.mp4"
    ensures UrlToFilename("http://h/v/") == "http://h/v/"
    ensures UrlToFilename("clip.mp4") == "clip.mp4"
  {
    assert FilenameMatchAt("http://h/v/clip.mp4", 10);
    forall i ensures !FilenameMatchAt("http://h/v/", i) {
    }
    forall i ensures !FilenameMatchAt("clip.mp4", i) {
    }
  }

  // ---------------------------------------------------------------------------
  // Server classification

  datatype ServerKind = Nginx | Apache | Iis | Generic

  /**
   * What `getHeaderData` gives `getServer`: a `Headers` object (whose `Server`
   * entry may be missing), or the plain object `{}` it returns when there is no
   * URL or the fetch fails.
   */
  datatype HeaderData = EmptyObject | Headers(server: Option<string>)

  /** The token `getServer` looks for to recognise each server. */
  function Token(kind: ServerKind): string {
    match kind
    case Nginx => "nginx"
    case Apache => "apache"
    case Iis => "iis"
    case Generic => ""
  }

  /**
   * Classifies a `Server` header value, checking "nginx" before "apache"
   * before "iis" in its lower-cased form.
   */
  function ServerFromName(name: string): (kind: ServerKind)
    ensures kind != Generic ==> Contains(LowerAscii(name), Token(kind))
    ensures kind == Generic <==>
      !Contains(LowerAscii(name), "nginx") && !Contains(LowerAscii(name), "apache") && !Contains(LowerAscii(name), "iis")
    ensures Contains(LowerAscii(name), "nginx") ==> kind == Nginx
    ensures Contains(LowerAscii(name), "apache") && kind != Apache ==> kind == Nginx
  {
    var server := LowerAscii(name);
    if Contains(server, "nginx") then Nginx
    else if Contains(server, "apache") then Apache
    else if Contains(server, "iis") then Iis
    else Generic
  }

  /** The classification ignores the header's letter case. */
  lemma ServerFromNameIgnoresCase(name: string)
    ensures ServerFromName(LowerAscii(name)) == ServerFromName(name)
  {
    LowerAsciiIdempotent(name);
  }

  lemma ServerPrecedence()
    ensures ServerFromName("Apache/2.4 (nginx proxy)") == Nginx
    ensures ServerFromName("") == Generic
  {
    assert OccursAt(LowerAscii("Apache/2.4 (nginx proxy)"), "nginx", 12);
  }

  /** An IIS header mentions neither nginx nor apache. */
  lemma IisServer()
    ensures ServerFromName("Microsoft-IIS/10.0") == Iis
  {
    var m := LowerAscii("Microsoft-IIS/10.0");
    assert m == "microsoft-iis/10.0";
    assert OccursAt(m, "iis", 10);
    forall i | 0 <= i <= |m| - 5 ensures !OccursAt(m, "nginx", i) {
      assert m[i..i + 5][0] == m[i] != 'n';
    }
    forall i | 0 <= i <= |m| - 6 ensures !OccursAt(m, "apache", i) {
      assert m[i..i + 6][1] == m[i + 1] != 'p';
    }
  }

  /**
   * `getServer`: a missing or empty `Server` header gives 'generic'; after a
   * failed header fetch `h.get` is not a function and the call throws.
   */
  function GetServer(h: HeaderData): (r: Result<ServerKind>)
    ensures r.Err? <==> h.EmptyObject?
    ensures h.Headers? && h.server.Some? ==> r == Ok(ServerFromName(h.server.value))
    ensures h.Headers? && h.server.None? ==> r == Ok(Generic)
  {
    match h
    case EmptyObject => Err("TypeError: h.get is not a function")
    case Headers(server) =>
      if server.Some? && server.value != "" then Ok(ServerFromName(server.value))
      else
        assert server.Some? ==> !Contains(LowerAscii(server.value), "nginx");
        Ok(Generic)
  }

  // ---------------------------------------------------------------------------
  // Apache listing cells

  /** A size as the parsers leave it: not set, `NaN`, or a number of bytes. */
  datatype SizeValue = NoSize | NotANumber | Size(bytes: nat)

  /** Index of the first `\d` in `s`, where a leftmost `(\d+)` match starts. */
  function FirstDigit(s: string, from: nat): (r: Option<nat>)
    requires from <= |s|
    ensures r.Some? ==> from <= r.value < |s| && IsDigit(s[r.value])
    ensures r.Some? ==> forall j | from <= j < r.value :: !IsDigit(s[j])
    ensures r.None? ==> forall j | from <= j < |s| :: !IsDigit(s[j])
    decreases |s| - from
  {
    if from == |s| then None
    else if IsDigit(s[from]) then Some(from)
    else FirstDigit(s, from + 1)
  }

  /** End of the greedy digit run `\d+` starting at `i`. */
  function DigitRunEnd(s: string, i: nat): (j: nat)
    requires i <= |s|
    ensures i <= j <= |s|
    ensures forall k | i <= k < j :: IsDigit(s[k])
    ensures j == |s| || !IsDigit(s[j])
    decreases |s| - i
  {
    if i < |s| && IsDigit(s[i]) then DigitRunEnd(s, i + 1) else i
  }

  /** `parseInt(ds, 10)` for a string of decimal digits. */
  function DecimalValue(ds: string): nat
    requires forall k | 0 <= k < |ds| :: IsDigit(ds[k])
    decreases |ds|
  {
    if |ds| == 0 then 0
    else
      var d := ds[|ds| - 1];
      assert IsDigit(d);
      DecimalValue(ds[..|ds| - 1]) * 10 + (d as int - '0' as int)
  }

  /** The `factor` table: B, K, M, G, T; any other unit letter is missing from it. */
  function UnitFactor(unit: char): Option<nat> {
    match unit
    case 'B' => Some(0)
    case 'K' => Some(1)
    case 'M' => Some(2)
    case 'G' => Some(3)
    case 'T' => Some(4)
    case _ => None
  }

  function Pow1024(k: nat): nat {
    if k == 0 then 1 else 1024 * Pow1024(k - 1)
  }

  /**
   * The size cell of an Apache listing: `/(\d+)(\w)?/` takes the first run of
   * digits and the one word character after it; no unit means bytes, a unit
   * outside the table gives `NaN`.
   */
  function ApacheSize(text: string): (r: SizeValue)
    ensures r == NoSize <==> forall j | 0 <= j < |text| :: !IsDigit(text[j])
  {
    match FirstDigit(text, 0)
    case None => NoSize
    case Some(i) =>
      var j := DigitRunEnd(text, i);
      var value := DecimalValue(text[i..j]);
      if j < |text| && IsWordChar(text[j]) then
        match UnitFactor(text[j])
        case None => NotANumber
        case Some(k) => Size(value * Pow1024(k))
      else Size(value)
  }

  /**
   * Only the first run of digits is read, wherever it starts (Apache pads the
   * column with blanks), and only the character right after it can be a unit.
   */
  lemma ApacheSizeOfFirstNumber(prefix: string, digits: string, rest: string)
    requires forall k | 0 <= k < |prefix| :: !IsDigit(prefix[k])
    requires |digits| > 0 && forall k | 0 <= k < |digits| :: IsDigit(digits[k])
    requires rest == [] || !IsDigit(rest[0])
    ensures ApacheSize(prefix + digits + rest) ==
      if rest == [] || !IsWordChar(rest[0]) then Size(DecimalValue(digits))
      else match UnitFactor(rest[0])
        case None => NotANumber
        case Some(k) => Size(DecimalValue(digits) * Pow1024(k))
  {
    var text := prefix + digits + rest;
    var i, j := |prefix|, |prefix| + |digits|;
    FirstDigitAt(text, 0, i);
    DigitRunEndOfDigits(text, i, j);
    assert text[i..j] == digits;
    if rest != [] {
      assert text[j] == rest[0];
    }
  }

  /** The search for a digit stops at the first one. */
  lemma {:induction false} FirstDigitAt(s: string, from: nat, i: nat)
    requires from <= i < |s| && IsDigit(s[i])
    requires forall k | from <= k < i :: !IsDigit(s[k])
    ensures FirstDigit(s, from) == Some(i)
    decreases i - from
  {
    if from < i {
      FirstDigitAt(s, from + 1, i);
    }
  }

  lemma {:induction false} DigitRunEndOfDigits(s: string, i: nat, j: nat)
    requires i <= j <= |s|
    requires forall k | i <= k < j :: IsDigit(s[k])
    requires j == |s| || !IsDigit(s[j])
    ensures DigitRunEnd(s, i) == j
    decreases j - i
  {
    if i < j {
      DigitRunEndOfDigits(s, i + 1, j);
    }
  }

  lemma ApacheSizeExamples()
    ensures ApacheSize("1.5M") == Size(1)
  {
    ApacheSizeOfFirstNumber("", "1", ".5M");
    assert "" + "1" + ".5M" == "1.5M";
  }

  /** Any number directly followed by `M` is that many mebibytes. */
  lemma ApacheSizeMegabytes(digits: string)
    requires |digits| > 0 && forall k | 0 <= k < |digits| :: IsDigit(digits[k])
    ensures ApacheSize(digits + "M") == Size(DecimalValue(digits) * 1048576)
  {
    ApacheSizeOfFirstNumber("", digits, "M");
    assert "" + digits + "M" == digits + "M";
    Mebibytes(DecimalValue(digits));
  }

  lemma Mebibytes(v: nat)
    ensures v * Pow1024(2) == v * 1048576
  {
    assert Pow1024(2) == 1048576 by {
      assert Pow1024(1) == 1024;
    }
  }

  /** A blank-padded cell, as Apache writes them: the blanks are skipped. */
  lemma ApacheSizePaddedCell()
    ensures ApacheSize(" 12K") == Size(12288)
  {
    ApacheSizeOfFirstNumber(" ", "12", "K");
    assert " " + "12" + "K" == " 12K";
    assert DecimalValue("12") == 12 by {
      assert "12"[..1] == "1";
    }
  }

  /** A zero-byte file's cell reads as the number 0. */
  lemma ApacheSizeZero()
    ensures ApacheSize("0") == Size(0)
  {
    ApacheSizeOfFirstNumber("", "0", "");
    assert "" + "0" + "" == "0";
  }

  /** A bare number is bytes, a lower-case unit is not in the table, and a dash is no size. */
  lemma ApacheSizeEdgeCases()
    ensures ApacheSize("7") == Size(7)
    ensures ApacheSize("12k") == NotANumber
    ensures ApacheSize("  - ") == NoSize
  {
    ApacheSizeOfFirstNumber("", "7", "");
    assert "" + "7" + "" == "7";
    ApacheSizeOfFirstNumber("", "12", "k");
    assert "" + "12" + "k" == "12k";
  }


  /** `(\d{4})-(\d{2})-(\d{2}) (\d{2}):(\d{2})`, with 'd' standing for a digit. */
  const DatePattern: string := "dddd-dd-dd dd:dd"

  predicate DateStampAt(s: string, i: int) {
    && 0 <= i && i + |DatePattern| <= |s|
    && forall k | 0 <= k < |DatePattern| ::
         if DatePattern[k] == 'd' then IsDigit(s[i + k]) else s[i + k] == DatePattern[k]
  }

  /**
   * The leftmost date stamp in a cell. The `Date` built from its captures is
   * represented by the stamp's text: only its presence matters to the listing.
   */
  function FindDateStamp(s: string, from: nat): (r: Option<string>)
    requires from <= |s|
    ensures r.Some? <==> exists i | from <= i <= |s| :: DateStampAt(s, i)
    decreases |s| - from
  {
    if from + |DatePattern| > |s| then None
    else if DateStampAt(s, from) then Some(s[from..from + |DatePattern|])
    else FindDateStamp(s, from + 1)
  }

  // ---------------------------------------------------------------------------
  // Metadata of one link

  datatype Metadata = Metadata(date: Option<string>, size: SizeValue)

  const NoMetadata: Metadata := Metadata(None, NoSize)

  /** The table row around an Apache link: absent, or its third and fourth cells. */
  datatype ApacheRow = NoRow | Row(dateCell: Option<string>, sizeCell: Option<string>)

  /**
   * One `<a>` of the listing. The nginx and IIS parsers read the text beside
   * the link with date regexes whose `Date` construction is not modelled, so
   * their results are carried as given.
   */
  datatype Link = Link(url: string, apacheRow: ApacheRow, nginxMetadata: Metadata, iisMetadata: Metadata)

  /** `servers.apache`: date from the third cell, size from the fourth. */
  function ApacheMetadata(row: ApacheRow): (md: Metadata)
    ensures md.date.Some? <==> row.Row? && row.dateCell.Some? && exists i | 0 <= i <= |row.dateCell.value| :: DateStampAt(row.dateCell.value, i)
    ensures row.Row? && row.dateCell.Some? ==> md.date == FindDateStamp(row.dateCell.value, 0)
    ensures row.Row? && row.sizeCell.Some? ==> md.size == ApacheSize(row.sizeCell.value)
    ensures !(row.Row? && row.sizeCell.Some?) ==> md.size == NoSize
  {
    match row
    case NoRow => NoMetadata
    case Row(dateCell, sizeCell) =>
      Metadata(
        if dateCell.Some? then FindDateStamp(dateCell.value, 0) else None,
        if sizeCell.Some? then ApacheSize(sizeCell.value) else NoSize)
  }

  /**
   * `linkToMetadata`: the parser is looked up under the server's name. There is
   * no parser named 'generic', so a generic server gets no metadata and the
   * `fallback` parser is never used.
   */
  function LinkToMetadata(link: Link, server: ServerKind): (md: Metadata)
    ensures server == Generic ==> md == NoMetadata
  {
    match server
    case Apache => ApacheMetadata(link.apacheRow)
    case Nginx => link.nginxMetadata
    case Iis => link.iisMetadata
    case Generic => NoMetadata
  }

  // ---------------------------------------------------------------------------
  // Partitioning the links

  datatype FolderType = Child | Parent | Root

  /** The object pushed for one link; a property never set is None. */
  datatype Entry = Entry(url: string, name: Option<string>, folderType: Option<FolderType>, size: Option<nat>, date: Option<string>)

  datatype Listing = Listing(server: ServerKind, folders: seq<Entry>, files: seq<Entry>)

  /** The list `var target` refers to: not yet assigned, `folders` or `files`. */
  datatype Target = Unset | ToFolders | ToFiles

  /** Apache's query 'td a' falls back to 'a' when it finds nothing; other servers query 'a'. */
  function SelectLinks(server: ServerKind, cellLinks: seq<Link>, anyLinks: seq<Link>): (links: seq<Link>)
    ensures server != Apache ==> links == anyLinks
    ensures server == Apache && cellLinks != [] ==> links == cellLinks
    ensures server == Apache && cellLinks == [] ==> links == anyLinks
  {
    if server == Apache && |cellLinks| > 0 then cellLinks else anyLinks
  }

  /**
   * The type given to a link that lands in `folders`: 'parent' when (the
   * server is Apache and there is no date) or the URL is '../' or the base
   * URL's parent folder; otherwise 'root' for '/'; otherwise unchanged.
   */
  function FolderOverride(url: string, server: ServerKind, md: Metadata, baseUrl: string): Option<FolderType> {
    if (server == Apache && md.date.None?) || url == "../" || url == ParentFolder(baseUrl) then Some(Parent)
    else if url == "/" then Some(Root)
    else None
  }

  /** The `res` object built for `link` in one iteration, given where `target` points afterwards. */
  function MakeEntry(link: Link, server: ServerKind, baseUrl: string, target: Target): Entry {
    var kind := UrlType(link.url);
    var md := LinkToMetadata(link, server);
    var name :=
      match kind
      case Folder => UrlToFoldername(link.url)
      case File => Some(UrlToFilename(link.url))
      case _ => None;
    var initialType := if kind == Folder then Some(Child) else None;
    var folderType :=
      if target == ToFolders then
        var o := FolderOverride(link.url, server, md, baseUrl);
        if o.Some? then o else initialType
      else initialType;
    var size := if md.size.Size? && md.size.bytes != 0 then Some(md.size.bytes) else None;
    Entry(link.url, name, folderType, size, md.date)
  }

  /**
   * Where `target` points after iteration `i`: a folder sets it to `folders`,
   * a file to `files`, and a hidden link leaves it as the previous iteration left it.
   */
  function RouteOf(links: seq<Link>, i: nat): Target
    requires i < |links|
  {
    var kind := UrlType(links[i].url);
    if kind == Folder then ToFolders
    else if kind == File then ToFiles
    else if i == 0 then Unset
    else RouteOf(links, i - 1)
  }

  /** The entry each link becomes when `target` names list `t` after its iteration. */
  function EntriesFor(links: seq<Link>, t: Target, server: ServerKind, baseUrl: string): (entries: seq<Entry>)
    ensures |entries| == |links|
    ensures forall i | 0 <= i < |links| :: entries[i] == MakeEntry(links[i], server, baseUrl, t)
  {
    seq(|links|, i requires 0 <= i < |links| => MakeEntry(links[i], server, baseUrl, t))
  }

  /** Of the prepared `entries`, those whose links the first `n` iterations route to list `t`, in order. */
  function Pushed(links: seq<Link>, entries: seq<Entry>, n: nat, t: Target): seq<Entry>
    requires n <= |links| == |entries|
  {
    if n == 0 then []
    else if RouteOf(links, n - 1) == t then Pushed(links, entries, n - 1, t) + [entries[n - 1]]
    else Pushed(links, entries, n - 1, t)
  }

  /** The entries that the first `n` iterations push onto list `t`, in link order. */
  function Routed(links: seq<Link>, n: nat, t: Target, server: ServerKind, baseUrl: string): seq<Entry>
    requires n <= |links|
  {
    Pushed(links, EntriesFor(links, t, server, baseUrl), n, t)
  }

  /**
   * `getLinksFromFrame`: classifies the server, picks the links, and pushes one
   * entry per link onto the list `target` names. When the first link is hidden,
   * `target` is still undefined and `target.push` throws.
   */
  method GetLinksFromFrame(headers: HeaderData, cellLinks: seq<Link>, anyLinks: seq<Link>, baseUrl: string)
    returns (r: Result<Listing>)
    ensures GetServer(headers).Err? ==> r.Err?
    ensures GetServer(headers).Ok? ==>
      var server := GetServer(headers).value;
      var links := SelectLinks(server, cellLinks, anyLinks);
      && (r.Err? <==> |links| > 0 && UrlType(links[0].url) == Hidden)
      && (r.Ok? ==> r.value == Listing(server,
                                       Routed(links, |links|, ToFolders, server, baseUrl),
                                       Routed(links, |links|, ToFiles, server, baseUrl)))
  {
    var serverResult := GetServer(headers);
    if serverResult.Err? {
      return Err(serverResult.error);
    }
    var server := serverResult.value;
    var links := SelectLinks(server, cellLinks, anyLinks);
    var folders: seq<Entry> := [];
    var files: seq<Entry> := [];
    var target := Unset;
    for i := 0 to |links|
      invariant i > 0 ==> UrlType(links[0].url) != Hidden
      invariant target == if i == 0 then Unset else RouteOf(links, i - 1)
      invariant i > 0 ==> target != Unset
      invariant folders == Routed(links, i, ToFolders, server, baseUrl)
      invariant files == Routed(links, i, ToFiles, server, baseUrl)
    {
      var link := links[i];
      var kind := UrlType(link.url);
      if kind == Folder {
        target := ToFolders;
      } else if kind == File {
        target := ToFiles;
      }
      assert target == RouteOf(links, i);
      var res := MakeEntry(link, server, baseUrl, target);
      if target == Unset {
        return Err("TypeError: Cannot read properties of undefined (reading 'push')");
      }
      RoutedStep(links, i, server, baseUrl);
      if target == ToFolders {
        folders := folders + [res];
      } else {
        files := files + [res];
      }
    }
    return Ok(Listing(server, folders, files));
  }

  /** One more iteration appends the link's entry to its own list and leaves the other list alone. */
  lemma RoutedStep(links: seq<Link>, i: nat, server: ServerKind, baseUrl: string)
    requires i < |links|
    ensures var t := RouteOf(links, i);
      t != Unset ==>
        && Routed(links, i + 1, t, server, baseUrl) == Routed(links, i, t, server, baseUrl) + [MakeEntry(links[i], server, baseUrl, t)]
        && Routed(links, i + 1, Other(t), server, baseUrl) == Routed(links, i, Other(t), server, baseUrl)
  {
    var t := RouteOf(links, i);
    if t != Unset {
      var entries := EntriesFor(links, t, server, baseUrl);
      PushedStep(links, entries, EntriesFor(links, Other(t), server, baseUrl), i);
      assert entries[i] == MakeEntry(links[i], server, baseUrl, t);
    }
  }

  lemma PushedStep(links: seq<Link>, entries: seq<Entry>, others: seq<Entry>, i: nat)
    requires i < |links| == |entries| == |others|
    ensures var t := RouteOf(links, i);
      t != Unset ==>
        && Pushed(links, entries, i + 1, t) == Pushed(links, entries, i, t) + [entries[i]]
        && Pushed(links, others, i + 1, Other(t)) == Pushed(links, others, i, Other(t))
  {
    var t := RouteOf(links, i);
    if t != Unset {
      assert Other(t) != t;
    }
  }

  function Other(t: Target): Target {
    match t
    case ToFolders => ToFiles
    case ToFiles => ToFolders
    case Unset => Unset
  }

  // ---------------------------------------------------------------------------
  // Properties of the partition

  predicate IsHiddenLink(links: seq<Link>, j: int)
    requires 0 <= j < |links|
  {
    UrlType(links[j].url) == Hidden
  }

  /** The list a visible link's own kind selects. */
  function KindTarget(kind: UrlKind): Target {
    match kind
    case Folder => ToFolders
    case File => ToFiles
    case _ => Unset
  }

  /**
   * A link's list is that of the nearest visible link at or before it; there
   * is none exactly when every link so far is hidden.
   */
  lemma {:induction false} RouteIsNearestVisible(links: seq<Link>, i: nat)
    requires i < |links|
    ensures RouteOf(links, i) == Unset <==> forall j | 0 <= j <= i :: IsHiddenLink(links, j)
    ensures RouteOf(links, i) != Unset ==>
      exists j | 0 <= j <= i ::
        && !IsHiddenLink(links, j)
        && RouteOf(links, i) == KindTarget(UrlType(links[j].url))
        && forall m | j < m <= i :: IsHiddenLink(links, m)
  {
    if UrlType(links[i].url) == Hidden && i > 0 {
      RouteIsNearestVisible(links, i - 1);
      if RouteOf(links, i) != Unset {
        var j :| 0 <= j <= i - 1 && !IsHiddenLink(links, j)
          && RouteOf(links, i - 1) == KindTarget(UrlType(links[j].url))
          && forall m | j < m <= i - 1 :: IsHiddenLink(links, m);
        assert forall m | j < m <= i :: IsHiddenLink(links, m);
      }
    } else if UrlType(links[i].url) != Hidden {
      assert !IsHiddenLink(links, i);
    }
  }

  /** Once the first link is visible, every link has a list to go to. */
  lemma FirstVisibleRoutesAll(links: seq<Link>, i: nat)
    requires i < |links|
    requires UrlType(links[0].url) != Hidden
    ensures RouteOf(links, i) != Unset
  {
    RouteIsNearestVisible(links, i);
    assert !IsHiddenLink(links, 0);
  }

  /** No link is lost or duplicated: every routed link lands in exactly one of the lists. */
  lemma {:induction false} RoutedPartition(links: seq<Link>, n: nat, server: ServerKind, baseUrl: string)
    requires n <= |links|
    requires forall k | 0 <= k < n :: RouteOf(links, k) != Unset
    ensures |Routed(links, n, ToFolders, server, baseUrl)| + |Routed(links, n, ToFiles, server, baseUrl)| == n
  {
    PushedPartition(links, EntriesFor(links, ToFolders, server, baseUrl), EntriesFor(links, ToFiles, server, baseUrl), n);
  }

  lemma {:induction false} PushedPartition(links: seq<Link>, folderEntries: seq<Entry>, fileEntries: seq<Entry>, n: nat)
    requires n <= |links| == |folderEntries| == |fileEntries|
    requires forall k | 0 <= k < n :: RouteOf(links, k) != Unset
    ensures |Pushed(links, folderEntries, n, ToFolders)| + |Pushed(links, fileEntries, n, ToFiles)| == n
  {
    if n > 0 {
      PushedPartition(links, folderEntries, fileEntries, n - 1);
    }
  }

  function Urls(entries: seq<Entry>): seq<string> {
    if |entries| == 0 then [] else Urls(entries[..|entries| - 1]) + [entries[|entries| - 1].url]
  }

  /** The URLs of the first `n` links that satisfy `IsFolder` (or, with `folders` false, that do not), in order. */
  function FilterUrls(links: seq<Link>, n: nat, folders: bool): seq<string>
    requires n <= |links|
  {
    if n == 0 then []
    else if IsFolder(links[n - 1].url) == folders then FilterUrls(links, n - 1, folders) + [links[n - 1].url]
    else FilterUrls(links, n - 1, folders)
  }

  /** The URLs of the links that the first `n` iterations route to list `t`, in order. */
  function RoutedUrls(links: seq<Link>, n: nat, t: Target): seq<string>
    requires n <= |links|
  {
    if n == 0 then []
    else if RouteOf(links, n - 1) == t then RoutedUrls(links, n - 1, t) + [links[n - 1].url]
    else RoutedUrls(links, n - 1, t)
  }

  /** Each entry keeps its link's URL, so a list's URLs are the URLs routed to it. */
  lemma {:induction false} UrlsOfPushed(links: seq<Link>, entries: seq<Entry>, n: nat, t: Target)
    requires n <= |links| == |entries|
    requires forall i | 0 <= i < |links| :: entries[i].url == links[i].url
    ensures Urls(Pushed(links, entries, n, t)) == RoutedUrls(links, n, t)
  {
    if n > 0 {
      UrlsOfPushed(links, entries, n - 1, t);
      var prev := Pushed(links, entries, n - 1, t);
      if RouteOf(links, n - 1) == t {
        UrlsAppend(prev, entries[n - 1]);
      } else {
        assert Pushed(links, entries, n, t) == prev;
      }
    }
  }

  /** The prepared entries keep their links' URLs. */
  lemma EntryUrls(links: seq<Link>, t: Target, server: ServerKind, baseUrl: string)
    ensures forall i | 0 <= i < |links| :: EntriesFor(links, t, server, baseUrl)[i].url == links[i].url
  {
    forall i | 0 <= i < |links| ensures EntriesFor(links, t, server, baseUrl)[i].url == links[i].url {
      MakeEntryUrl(links[i], server, baseUrl, t);
    }
  }

  /** Without hidden links, a link is routed to `folders` exactly when it is a folder URL. */
  lemma {:induction false} VisibleRoutedUrls(links: seq<Link>, n: nat)
    requires n <= |links|
    requires forall k | 0 <= k < |links| :: !IsHiddenLink(links, k)
    ensures RoutedUrls(links, n, ToFolders) == FilterUrls(links, n, true)
    ensures RoutedUrls(links, n, ToFiles) == FilterUrls(links, n, false)
  {
    if n > 0 {
      VisibleRoutedUrls(links, n - 1);
      assert !IsHiddenLink(links, n - 1);
      if IsFolder(links[n - 1].url) {
        assert RouteOf(links, n - 1) == ToFolders;
      } else {
        assert RouteOf(links, n - 1) == ToFiles;
      }
    }
  }

  /** Without hidden links, `folders` and `files` hold the folder and file URLs in input order. */
  lemma VisibleLinksKeepOrder(links: seq<Link>, n: nat, server: ServerKind, baseUrl: string)
    requires n <= |links|
    requires forall k | 0 <= k < |links| :: !IsHiddenLink(links, k)
    ensures Urls(Routed(links, n, ToFolders, server, baseUrl)) == FilterUrls(links, n, true)
    ensures Urls(Routed(links, n, ToFiles, server, baseUrl)) == FilterUrls(links, n, false)
  {
    EntryUrls(links, ToFolders, server, baseUrl);
    EntryUrls(links, ToFiles, server, baseUrl);
    UrlsOfPushed(links, EntriesFor(links, ToFolders, server, baseUrl), n, ToFolders);
    UrlsOfPushed(links, EntriesFor(links, ToFiles, server, baseUrl), n, ToFiles);
    VisibleRoutedUrls(links, n);
  }

  lemma UrlsAppend(entries: seq<Entry>, e: Entry)
    ensures Urls(entries + [e]) == Urls(entries) + [e.url]
  {
    assert (entries + [e])[..|entries|] == entries;
  }

  /**
   * A folder link's type: 'parent' exactly when the override condition holds
   * (it wins over 'root'), 'root' for '/', and 'child' otherwise.
   */
  lemma FolderEntryType(link: Link, server: ServerKind, baseUrl: string)
    requires UrlType(link.url) == Folder
    ensures var md := LinkToMetadata(link, server);
      var parent := (server == Apache && md.date.None?) || link.url == "../" || link.url == ParentFolder(baseUrl);
      MakeEntry(link, server, baseUrl, ToFolders).folderType ==
        if parent then Some(Parent) else if link.url == "/" then Some(Root) else Some(Child)
    ensures MakeEntry(link, server, baseUrl, ToFolders).name == UrlToFoldername(link.url)
    ensures UrlToFoldername(link.url).Some?
  {
  }

  /**
   * `if (metadata.size)` and `if (metadata.date)`: a size is copied only when it
   * is truthy, so a 0 or NaN size is dropped; a date, a `Date` object, is always
   * copied.
   */
  lemma EntryMetadata(link: Link, server: ServerKind, baseUrl: string, t: Target)
    ensures var md := LinkToMetadata(link, server);
      var e := MakeEntry(link, server, baseUrl, t);
      && (e.size.Some? <==> md.size.Size? && md.size.bytes != 0)
      && (e.size.Some? ==> e.size.value == md.size.bytes)
      && e.date == md.date
  {
  }

  /** A file entry is named after its file, has no folder type, and carries the link's metadata. */
  lemma FileEntryContents(link: Link, server: ServerKind, baseUrl: string)
    requires UrlType(link.url) == File
    ensures var e := MakeEntry(link, server, baseUrl, ToFiles);
      && e.url == link.url
      && e.name == Some(UrlToFilename(link.url))
      && e.folderType == None
      && e.date == LinkToMetadata(link, server).date
  {
  }

  /** An Apache size cell of "0" gives the number 0, which is falsy, so no entry gets a size from it. */
  lemma ZeroSizeCellDropped(url: string, dateCell: Option<string>, md: Metadata, baseUrl: string, t: Target)
    ensures MakeEntry(Link(url, Row(dateCell, Some("0")), md, md), Apache, baseUrl, t).size == None
  {
    ApacheSizeZero();
    EntryMetadata(Link(url, Row(dateCell, Some("0")), md, md), Apache, baseUrl, t);
  }

  /** An Apache size cell of "12k" gives NaN, which is falsy, so no entry gets a size from it. */
  lemma NaNSizeCellDropped(url: string, dateCell: Option<string>, md: Metadata, baseUrl: string, t: Target)
    ensures MakeEntry(Link(url, Row(dateCell, Some("12k")), md, md), Apache, baseUrl, t).size == None
  {
    ApacheSizeEdgeCases();
    EntryMetadata(Link(url, Row(dateCell, Some("12k")), md, md), Apache, baseUrl, t);
  }

  /** '/' listed under the base "a/" is its parent folder, so it is typed 'parent', not 'root'. */
  lemma ParentWinsOverRoot(apacheRow: ApacheRow, md: Metadata)
    ensures MakeEntry(Link("/", apacheRow, md, md), Nginx, "a/", ToFolders).folderType == Some(Parent)
  {
    assert LastIndexOf("a/", '/') == Some(1);
    assert LastIndexOf("a", '/') == None;
    assert ParentFolder("a/") == "/";
    assert !HiddenMatchAt("/", 0);
    var link := Link("/", apacheRow, md, md);
    FolderEntryType(link, Nginx, "a/");
  }

  /** On Apache every folder link without a date cell stamp is taken for the parent folder. */
  lemma ApacheUndatedFolderIsParent(link: Link, baseUrl: string)
    requires UrlType(link.url) == Folder
    requires ApacheMetadata(link.apacheRow).date.None?
    ensures MakeEntry(link, Apache, baseUrl, ToFolders).folderType == Some(Parent)
  {
  }

  /** A generic server attaches neither size nor date to any entry. */
  lemma GenericServerHasNoMetadata(link: Link, baseUrl: string, t: Target)
    ensures MakeEntry(link, Generic, baseUrl, t).size.None?
    ensures MakeEntry(link, Generic, baseUrl, t).date.None?
  {
  }

  // ---------------------------------------------------------------------------
  // Hidden links

  /**
   * As written, a hidden link after a folder lands in `folders`: it follows the
   * previous link, is typed by the folder rules, and has no name.
   */
  lemma HiddenLinkJoinsPreviousList(row: ApacheRow, md: Metadata)
    ensures var links := [Link("/a/", row, md, md), Link("/a/.env", row, md, md)];
      && UrlType(links[1].url) == Hidden
      && Routed(links, 2, ToFolders, Nginx, "/") ==
           [MakeEntry(links[0], Nginx, "/", ToFolders), MakeEntry(links[1], Nginx, "/", ToFolders)]
      && MakeEntry(links[1], Nginx, "/", ToFolders).name == None
      && Routed(links, 2, ToFiles, Nginx, "/") == []
  {
    var links := [Link("/a/", row, md, md), Link("/a/.env", row, md, md)];
    assert HiddenMatchAt("/a/.env", 2);
    assert UrlType("/a/.env") == Hidden;
    assert !HiddenMatchAt("/a/", 0) && !HiddenMatchAt("/a/", 1) && !HiddenMatchAt("/a/", 2);
    assert UrlType("/a/") == Folder;
    assert RouteOf(links, 0) == ToFolders;
    assert RouteOf(links, 1) == ToFolders;
    RoutedStep(links, 0, Nginx, "/");
    RoutedStep(links, 1, Nginx, "/");
  }

  /** The evidently intended partition: a hidden link goes to neither list. */
  function VisiblePushed(links: seq<Link>, entries: seq<Entry>, n: nat, t: Target): seq<Entry>
    requires n <= |links| == |entries|
  {
    if n == 0 then []
    else if KindTarget(UrlType(links[n - 1].url)) == t then VisiblePushed(links, entries, n - 1, t) + [entries[n - 1]]
    else VisiblePushed(links, entries, n - 1, t)
  }

  function VisibleRouted(links: seq<Link>, n: nat, t: Target, server: ServerKind, baseUrl: string): seq<Entry>
    requires n <= |links|
  {
    VisiblePushed(links, EntriesFor(links, t, server, baseUrl), n, t)
  }

  /** No hidden URL is listed, folders hold only folder URLs and files only file URLs. */
  lemma VisibleRoutedKinds(links: seq<Link>, n: nat, t: Target, server: ServerKind, baseUrl: string)
    requires n <= |links|
    requires t != Unset
    ensures forall e | e in VisibleRouted(links, n, t, server, baseUrl) :: KindTarget(UrlType(e.url)) == t
  {
    EntryUrls(links, t, server, baseUrl);
    VisiblePushedKinds(links, EntriesFor(links, t, server, baseUrl), n, t);
  }

  lemma {:induction false} VisiblePushedKinds(links: seq<Link>, entries: seq<Entry>, n: nat, t: Target)
    requires n <= |links| == |entries|
    requires forall i | 0 <= i < |links| :: entries[i].url == links[i].url
    requires t != Unset
    ensures forall e | e in VisiblePushed(links, entries, n, t) :: KindTarget(UrlType(e.url)) == t
  {
    if n > 0 {
      VisiblePushedKinds(links, entries, n - 1, t);
      var prev := VisiblePushed(links, entries, n - 1, t);
      if KindTarget(UrlType(links[n - 1].url)) == t {
        assert VisiblePushed(links, entries, n, t) == prev + [entries[n - 1]];
        KindsAppend(prev, entries[n - 1], t);
      } else {
        assert VisiblePushed(links, entries, n, t) == prev;
      }
    }
  }

  /** Every entry keeps its link's URL. */
  lemma MakeEntryUrl(link: Link, server: ServerKind, baseUrl: string, t: Target)
    ensures MakeEntry(link, server, baseUrl, t).url == link.url
  {
  }

  /** Appending an entry of kind `t` to entries of kind `t` keeps them all of kind `t`. */
  lemma KindsAppend(entries: seq<Entry>, e: Entry, t: Target)
    requires forall x | x in entries :: KindTarget(UrlType(x.url)) == t
    requires KindTarget(UrlType(e.url)) == t
    ensures forall x | x in entries + [e] :: KindTarget(UrlType(x.url)) == t
  {
    forall x | x in entries + [e] ensures KindTarget(UrlType(x.url)) == t {
      if x != e {
        assert x in entries;
      }
    }
  }

  /** On a listing without hidden links the intended partition is the one the code computes. */
  lemma VisibleRoutedAgrees(links: seq<Link>, n: nat, t: Target, server: ServerKind, baseUrl: string)
    requires n <= |links|
    requires forall k | 0 <= k < n :: !IsHiddenLink(links, k)
    ensures VisibleRouted(links, n, t, server, baseUrl) == Routed(links, n, t, server, baseUrl)
  {
    VisiblePushedAgrees(links, EntriesFor(links, t, server, baseUrl), n, t);
  }

  lemma {:induction false} VisiblePushedAgrees(links: seq<Link>, entries: seq<Entry>, n: nat, t: Target)
    requires n <= |links| == |entries|
    requires forall k | 0 <= k < n :: !IsHiddenLink(links, k)
    ensures VisiblePushed(links, entries, n, t) == Pushed(links, entries, n, t)
  {
    if n > 0 {
      VisiblePushedAgrees(links, entries, n - 1, t);
      assert !IsHiddenLink(links, n - 1);
      assert RouteOf(links, n - 1) == KindTarget(UrlType(links[n - 1].url));
    }
  }
}
