/**
 * The directory browser's own helpers: which video types the browser can
 * play (`getSupportedVideoTypes`), the folder of a URL (`urlToFolder`) and
 * whether a link names a playable video (`isVideo`).
 */
module DirectoryApp {
  import opened JsText
  import opened FolderApi

  // ---------------------------------------------------------------------------
  // Supported video types

  datatype VideoType = VideoType(mime: string, extensions: seq<string>)

  /** The types probed, in this order. */
  const VideoTypes: seq<VideoType> := [
    VideoType("video/mp4", ["mp4", "m4v", "mov"]),
    VideoType("video/webm", ["webm"]),
    VideoType("video/x-matroska", ["mkv"]),
    VideoType("video/ogg", ["ogg"])
  ]

  /** The result object: extension list and mime list. */
  datatype SupportedTypes = SupportedTypes(extensions: seq<string>, mime: seq<string>)

  /** The types whose mime `canPlayType` answers with anything but "", in order. */
  function Playable(types: seq<VideoType>, canPlayType: string -> string): seq<VideoType> {
    if |types| == 0 then []
    else
      Playable(types[..|types| - 1], canPlayType)
      + if canPlayType(types[|types| - 1].mime) != "" then [types[|types| - 1]] else []
  }

  function Mimes(types: seq<VideoType>): seq<string> {
    if |types| == 0 then [] else Mimes(types[..|types| - 1]) + [types[|types| - 1].mime]
  }

  function Extensions(types: seq<VideoType>): seq<string> {
    if |types| == 0 then [] else Extensions(types[..|types| - 1]) + types[|types| - 1].extensions
  }

  /**
   * `getSupportedVideoTypes`: for each type in order, when the browser can
   * play its mime, push all of its extensions and its mime.
   */
  method GetSupportedVideoTypes(canPlayType: string -> string) returns (supported: SupportedTypes)
    ensures supported.mime == Mimes(Playable(VideoTypes, canPlayType))
    ensures supported.extensions == Extensions(Playable(VideoTypes, canPlayType))
  {
    var extensions: seq<string> := [];
    var mime: seq<string> := [];
    for i := 0 to |VideoTypes|
      invariant mime == Mimes(Playable(VideoTypes[..i], canPlayType))
      invariant extensions == Extensions(Playable(VideoTypes[..i], canPlayType))
    {
      var t := VideoTypes[i];
      ghost var done := VideoTypes[..i];
      assert VideoTypes[..i + 1] == done + [t];
      PlayableSnoc(done, t, canPlayType);
      if canPlayType(t.mime) != "" {
        ListsSnoc(Playable(done, canPlayType), t);
        extensions := extensions + t.extensions;
        mime := mime + [t.mime];
      } else {
        assert Playable(done + [t], canPlayType) == Playable(done, canPlayType);
      }
    }
    assert VideoTypes[..|VideoTypes|] == VideoTypes;
    supported := SupportedTypes(extensions, mime);
  }

  /** Probing one more type appends it when it plays. */
  lemma PlayableSnoc(types: seq<VideoType>, t: VideoType, canPlayType: string -> string)
    ensures Playable(types + [t], canPlayType) ==
      Playable(types, canPlayType) + if canPlayType(t.mime) != "" then [t] else []
  {
    assert (types + [t])[..|types|] == types;
  }

  lemma ListsSnoc(types: seq<VideoType>, t: VideoType)
    ensures Mimes(types + [t]) == Mimes(types) + [t.mime]
    ensures Extensions(types + [t]) == Extensions(types) + t.extensions
  {
    assert (types + [t])[..|types|] == types;
  }

  /** A type is kept exactly when it is listed and playable; nothing else is kept. */
  lemma {:induction false} PlayableMembers(types: seq<VideoType>, canPlayType: string -> string, t: VideoType)
    ensures t in Playable(types, canPlayType) <==> t in types && canPlayType(t.mime) != ""
  {
    if |types| > 0 {
      PlayableMembers(types[..|types| - 1], canPlayType, t);
      assert types == types[..|types| - 1] + [types[|types| - 1]];
    }
  }

  /** The mime list names exactly the listed types' mimes. */
  lemma {:induction false} MimesMembers(types: seq<VideoType>, m: string)
    ensures m in Mimes(types) <==> exists t | t in types :: t.mime == m
  {
    if |types| > 0 {
      var init := types[..|types| - 1];
      MimesMembers(init, m);
      assert types == init + [types[|types| - 1]];
      if exists t | t in types :: t.mime == m {
        var t :| t in types && t.mime == m;
        assert t in init || t == types[|types| - 1];
      }
    }
  }

  /** An extension is supported exactly when some listed type carries it. */
  lemma {:induction false} ExtensionsMembers(types: seq<VideoType>, e: string)
    ensures e in Extensions(types) <==> exists t | t in types :: e in t.extensions
  {
    if |types| > 0 {
      var init := types[..|types| - 1];
      ExtensionsMembers(init, e);
      assert types == init + [types[|types| - 1]];
      if exists t | t in types :: e in t.extensions {
        var t :| t in types && e in t.extensions;
        assert t in init || t == types[|types| - 1];
      }
    }
  }

  /** A mime is reported exactly when it is one of the probed mimes and the browser can play it. */
  lemma SupportedMimeIffPlayable(canPlayType: string -> string, m: string)
    ensures m in Mimes(Playable(VideoTypes, canPlayType)) <==>
      (exists t | t in VideoTypes :: t.mime == m) && canPlayType(m) != ""
  {
    MimesMembers(Playable(VideoTypes, canPlayType), m);
    forall t | t in VideoTypes || t in Playable(VideoTypes, canPlayType)
      ensures t in Playable(VideoTypes, canPlayType) <==> t in VideoTypes && canPlayType(t.mime) != ""
    {
      PlayableMembers(VideoTypes, canPlayType, t);
    }
  }

  /** When everything plays, nothing is dropped. */
  lemma {:induction false} PlayableAll(types: seq<VideoType>, canPlayType: string -> string)
    requires forall t | t in types :: canPlayType(t.mime) != ""
    ensures Playable(types, canPlayType) == types
  {
    if |types| > 0 {
      var init, last := types[..|types| - 1], types[|types| - 1];
      assert types == init + [last];
      forall t | t in init ensures canPlayType(t.mime) != "" {
        assert t in types;
      }
      PlayableAll(init, canPlayType);
      PlayableSnoc(init, last, canPlayType);
    }
  }

  /** The table's lists in declared order. */
  lemma TableLists()
    ensures Extensions(VideoTypes) == ["mp4", "m4v", "mov", "webm", "mkv", "ogg"]
    ensures Mimes(VideoTypes) == ["video/mp4", "video/webm", "video/x-matroska", "video/ogg"]
  {
    var t := VideoTypes;
    ListsSnoc([], t[0]);
    assert [] + [t[0]] == [t[0]];
    ListsSnoc([t[0]], t[1]);
    assert [t[0]] + [t[1]] == [t[0], t[1]];
    ListsSnoc([t[0], t[1]], t[2]);
    assert [t[0], t[1]] + [t[2]] == [t[0], t[1], t[2]];
    ListsSnoc([t[0], t[1], t[2]], t[3]);
    assert [t[0], t[1], t[2]] + [t[3]] == t;
  }

  /** When everything plays, the lists are the whole table in declared order. */
  lemma AllPlayable(canPlayType: string -> string)
    requires forall t | t in VideoTypes :: canPlayType(t.mime) != ""
    ensures Extensions(Playable(VideoTypes, canPlayType)) == ["mp4", "m4v", "mov", "webm", "mkv", "ogg"]
    ensures Mimes(Playable(VideoTypes, canPlayType)) == ["video/mp4", "video/webm", "video/x-matroska", "video/ogg"]
  {
    PlayableAll(VideoTypes, canPlayType);
    TableLists();
  }

  /** A lower-case ASCII letter or digit, which a regular expression matches literally. */
  predicate IsPlainChar(c: char) {
    'a' <= c <= 'z' || '0' <= c <= '9'
  }

  predicate IsPlainExtension(e: string) {
    |e| > 0 && forall i | 0 <= i < |e| :: IsPlainChar(e[i])
  }

  /** Every extension in the table is plain. */
  lemma TableExtensionsArePlain(t: VideoType, e: string)
    requires t in VideoTypes && e in t.extensions
    ensures IsPlainExtension(e)
  {
    assert t == VideoTypes[0] || t == VideoTypes[1] || t == VideoTypes[2] || t == VideoTypes[3];
    assert e == "mp4" || e == "m4v" || e == "mov" || e == "webm" || e == "mkv" || e == "ogg";
  }

  /** Every extension the table can contribute is plain, so `join('|')` builds a literal alternation. */
  lemma SupportedExtensionsArePlain(canPlayType: string -> string, e: string)
    requires e in Extensions(Playable(VideoTypes, canPlayType))
    ensures IsPlainExtension(e)
  {
    ExtensionsMembers(Playable(VideoTypes, canPlayType), e);
    var t :| t in Playable(VideoTypes, canPlayType) && e in t.extensions;
    PlayableMembers(VideoTypes, canPlayType, t);
    TableExtensionsArePlain(t, e);
  }

  // ---------------------------------------------------------------------------
  // urlToFolder

  /** `urlToFolder`: split at '/', drop the last piece, join and append '/'. */
  function UrlToFolder(url: string): (r: string)
    ensures r == Dirname(url)
  {
    JoinPopSplit(url);
    Join(Pop(Split(url, '/')), '/') + "/"
  }

  /** The folder of a URL ends in '/', is the URL itself when that already does, and is "/" without any '/'. */
  lemma UrlToFolderShape(url: string)
    ensures IsFolder(UrlToFolder(url))
    ensures IsFolder(url) ==> UrlToFolder(url) == url
    ensures '/' !in url ==> UrlToFolder(url) == "/"
  {
    if IsFolder(url) {
      assert url[..|url|] == url;
    }
  }

  /** Taking the folder twice is taking it once. */
  lemma UrlToFolderIdempotent(url: string)
    ensures UrlToFolder(UrlToFolder(url)) == UrlToFolder(url)
  {
    UrlToFolderShape(UrlToFolder(url));
  }

  // ---------------------------------------------------------------------------
  // isVideo

  /** `extensions.join('|')` as alternatives: an empty list gives one empty alternative. */
  function Alternatives(extensions: seq<string>): seq<string> {
    if |extensions| == 0 then [""] else extensions
  }

  /** `alternative` starts `s`. */
  predicate StartsWith(s: string, alternative: string) {
    |alternative| <= |s| && s[..|alternative|] == alternative
  }

  /**
   * `s` matches `(a1|...|an)+` entirely: some alternative, then either
   * nothing or (after a non-empty one) another run.
   */
  predicate Repeats(s: string, alternatives: seq<string>)
    decreases |s|, 1
  {
    exists k | 0 <= k < |alternatives| :: RepeatsFrom(s, alternatives, k)
  }

  /** The run matching `s` starts with alternative `k`. */
  predicate RepeatsFrom(s: string, alternatives: seq<string>, k: int)
    requires 0 <= k < |alternatives|
    decreases |s|, 0
  {
    var a := alternatives[k];
    StartsWith(s, a) && (|a| == |s| || (|a| > 0 && Repeats(s[|a|..], alternatives)))
  }

  /**
   * `isVideo(haystack)` as written: the template literal turns `\.` into `.`,
   * so the pattern is `.+(e1|...|en)+$` with the `i` flag: some character
   * that is not a line terminator, then one or more extensions up to the end.
   */
  predicate IsVideo(haystack: string, extensions: seq<string>)
    requires forall e | e in extensions :: IsPlainExtension(e)
  {
    exists j | 1 <= j <= |haystack| ::
      !IsLineTerminator(haystack[j - 1]) && Repeats(LowerAscii(haystack)[j..], Alternatives(extensions))
  }

  /** `s` ends with `e`. */
  predicate EndsWith(s: string, e: string) {
    |e| <= |s| && s[|s| - |e|..] == e
  }

  /** A run of plain alternatives ends with one of them and holds only plain characters. */
  lemma {:induction false} RepeatsShape(s: string, alternatives: seq<string>)
    requires forall e | e in alternatives :: IsPlainExtension(e)
    requires Repeats(s, alternatives)
    ensures exists e | e in alternatives :: EndsWith(s, e)
    ensures forall i | 0 <= i < |s| :: IsPlainChar(s[i])
    decreases |s|
  {
    var k :| 0 <= k < |alternatives| && RepeatsFrom(s, alternatives, k);
    var a := alternatives[k];
    assert IsPlainExtension(a);
    if |a| == |s| {
      assert s == a;
      assert EndsWith(s, a);
    } else {
      var rest := s[|a|..];
      RepeatsShape(rest, alternatives);
      var e :| e in alternatives && EndsWith(rest, e);
      assert s[|s| - |e|..] == rest[|rest| - |e|..];
      assert EndsWith(s, e);
      forall i | 0 <= i < |s| ensures IsPlainChar(s[i]) {
        if i < |a| {
          assert s[i] == a[i];
        } else {
          assert s[i] == rest[i - |a|];
        }
      }
    }
  }

  /** Whatever a suffix ends with, the whole string ends with. */
  lemma EndsWithSuffix(s: string, j: nat, e: string)
    requires j <= |s| && EndsWith(s[j..], e)
    ensures EndsWith(s, e)
  {
    assert s[|s| - |e|..] == s[j..][|s| - j - |e|..];
  }

  /** A plain character of the folded string comes from a character that `.` matches. */
  lemma PlainFoldedIsNotTerminator(c: char)
    requires IsPlainChar(LowerChar(c))
    ensures !IsLineTerminator(c)
  {
  }

  /** A URL that passes `isVideo` ends with a supported extension that follows a character `.` matches. */
  lemma IsVideoEndsWithExtension(haystack: string, extensions: seq<string>)
    requires forall e | e in extensions :: IsPlainExtension(e)
    requires |extensions| > 0
    requires IsVideo(haystack, extensions)
    ensures exists e | e in extensions ::
      |e| < |haystack| && EndsWith(LowerAscii(haystack), e) && !IsLineTerminator(haystack[|haystack| - |e| - 1])
  {
    var l := LowerAscii(haystack);
    var j :| 1 <= j <= |haystack| && !IsLineTerminator(haystack[j - 1]) && Repeats(l[j..], Alternatives(extensions));
    var tail := l[j..];
    RepeatsShape(tail, extensions);
    var e :| e in extensions && EndsWith(tail, e);
    EndsWithSuffix(l, j, e);
    assert |e| <= |tail| == |haystack| - j;
    var p := |haystack| - |e| - 1;
    if p >= j {
      assert l[p] == tail[p - j];
      PlainFoldedIsNotTerminator(haystack[p]);
    } else {
      assert p == j - 1;
    }
  }

  /** Conversely, such an ending is enough: the extension alone is the run, the character before it the `.+`. */
  lemma EndsWithExtensionIsVideo(haystack: string, extensions: seq<string>, k: nat)
    requires forall e | e in extensions :: IsPlainExtension(e)
    requires k < |extensions|
    requires |extensions[k]| < |haystack| && EndsWith(LowerAscii(haystack), extensions[k])
    requires !IsLineTerminator(haystack[|haystack| - |extensions[k]| - 1])
    ensures IsVideo(haystack, extensions)
  {
    var l := LowerAscii(haystack);
    var j := |haystack| - |extensions[k]|;
    assert l[j..] == extensions[k];
    assert RepeatsFrom(l[j..], extensions, k);
    assert Repeats(l[j..], Alternatives(extensions));
  }

  /**
   * With a non-empty list, `isVideo` holds exactly when the URL ends, in any
   * letter case, with a supported extension that has at least one character
   * before it other than a line terminator. No dot is needed.
   */
  lemma IsVideoIff(haystack: string, extensions: seq<string>)
    requires forall e | e in extensions :: IsPlainExtension(e)
    requires |extensions| > 0
    ensures IsVideo(haystack, extensions) <==>
      exists e | e in extensions ::
        |e| < |haystack| && EndsWith(LowerAscii(haystack), e) && !IsLineTerminator(haystack[|haystack| - |e| - 1])
  {
    if IsVideo(haystack, extensions) {
      IsVideoEndsWithExtension(haystack, extensions);
    }
    if exists e | e in extensions ::
        |e| < |haystack| && EndsWith(LowerAscii(haystack), e) && !IsLineTerminator(haystack[|haystack| - |e| - 1])
    {
      var e :| e in extensions && |e| < |haystack| && EndsWith(LowerAscii(haystack), e)
        && !IsLineTerminator(haystack[|haystack| - |e| - 1]);
      var k :| 0 <= k < |extensions| && extensions[k] == e;
      EndsWithExtensionIsVideo(haystack, extensions, k);
    }
  }

  /** With no playable type the pattern is `.+()+$`: any URL whose last character is not a line terminator. */
  lemma IsVideoWithoutExtensions(haystack: string)
    ensures IsVideo(haystack, []) <==> |haystack| > 0 && !IsLineTerminator(haystack[|haystack| - 1])
  {
    var l := LowerAscii(haystack);
    var alternatives := Alternatives([]);
    assert alternatives == [""];
    if |haystack| > 0 && !IsLineTerminator(haystack[|haystack| - 1]) {
      var j := |haystack|;
      assert RepeatsFrom(l[j..], alternatives, 0);
    }
    if IsVideo(haystack, []) {
      var j :| 1 <= j <= |haystack| && !IsLineTerminator(haystack[j - 1]) && Repeats(l[j..], alternatives);
      assert RepeatsFrom(l[j..], alternatives, 0);
      assert |l[j..]| == 0;
    }
  }

  /** A name without a dot before the extension, or an upper-case extension, is still a video. */
  lemma IsVideoAcceptsWithoutDot()
    ensures IsVideo("clipmp4", ["mp4"])
    ensures IsVideo("MOVIE.MKV", ["mkv"])
  {
    assert LowerAscii("clipmp4")[4..] == "mp4";
    EndsWithExtensionIsVideo("clipmp4", ["mp4"], 0);
    assert LowerAscii("MOVIE.MKV")[6..] == "mkv";
    EndsWithExtensionIsVideo("MOVIE.MKV", ["mkv"], 0);
  }

  /** The extension alone, or a folder URL, is not a video. */
  lemma IsVideoRejects()
    ensures !IsVideo("mp4", ["mp4"])
  {
    IsVideoIff("mp4", ["mp4"]);
  }

  /** A trailing '/' after the extension fails the end anchor. */
  lemma IsVideoRejectsFolder()
    ensures !IsVideo("clip.mp4/", ["mp4"])
  {
    IsVideoIff("clip.mp4/", ["mp4"]);
    assert LowerAscii("clip.mp4/")[6..] == "p4/";
  }

  /**
   * The evidently intended test `\.+(e1|...|en)+$`: one or more dots right
   * before the extensions.
   */
  predicate IsVideoIntended(haystack: string, extensions: seq<string>)
    requires forall e | e in extensions :: IsPlainExtension(e)
  {
    exists j | 1 <= j <= |haystack| ::
      haystack[j - 1] == '.' && Repeats(LowerAscii(haystack)[j..], Alternatives(extensions))
  }

  /** The intended test needs a dot, and whatever it accepts the written one accepts too. */
  lemma IsVideoIntendedNeedsDot(haystack: string, extensions: seq<string>)
    requires forall e | e in extensions :: IsPlainExtension(e)
    ensures IsVideoIntended(haystack, extensions) ==> '.' in haystack && IsVideo(haystack, extensions)
    ensures !IsVideoIntended("clipmp4", extensions)
  {
    if IsVideoIntended(haystack, extensions) {
      var j :| 1 <= j <= |haystack| && haystack[j - 1] == '.' && Repeats(LowerAscii(haystack)[j..], Alternatives(extensions));
      assert !IsLineTerminator(haystack[j - 1]);
    }
    assert '.' !in "clipmp4";
  }
}
