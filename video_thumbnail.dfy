/**
 * video-thumbnail.js v1.0.0: `getThumbnailDataURI(url, opts)` loads a video
 * into a muted, inline `<video>` element, seeks it, draws the frame on a
 * canvas sized from the requested width and the video's aspect ratio, and
 * resolves to the encoded image (a data URI or an object URL).
 *
 * The browser is replaced by parameters: the media's duration and natural
 * size, which of the `canplay`/`error` and `seeked`/`error` events fires, and
 * an encoder standing for `toDataURL`/`toBlob`.
 */
module VideoThumbnail {
  import opened JsText

  // ---------------------------------------------------------------------------
  // JavaScript values in the options object

  /** The values an options object can carry (arrays and functions are not modelled). */
  datatype JsValue =
    | Undefined
    | Null
    | Bool(b: bool)
    | Num(n: real)
    | NaN
    | Str(s: string)
    | Obj(props: map<string, JsValue>)

  /** JavaScript truthiness: false, 0, NaN, "", null and undefined are falsy; every object is truthy. */
  predicate IsTruthy(v: JsValue) {
    match v
    case Undefined => false
    case Null => false
    case Bool(b) => b
    case Num(n) => n != 0.0
    case NaN => false
    case Str(s) => s != ""
    case Obj(_) => true
  }

  /**
   * `v[key]` for the keys read here ("time", "size", "mime", "type",
   * "quality"): reading a property of undefined or null throws (None); other
   * primitives have none of these properties; a missing own property is undefined.
   */
  function Get(v: JsValue, key: string): (r: Option<JsValue>)
    ensures r.None? <==> v.Undefined? || v.Null?
    ensures r.Some? && r.value != Undefined ==> v.Obj? && key in v.props && v.props[key] == r.value
  {
    match v
    case Undefined => None
    case Null => None
    case Obj(props) => Some(if key in props then props[key] else Undefined)
    case _ => Some(Undefined)
  }

  // ---------------------------------------------------------------------------
  // The image mime test `/image\/.+/i`

  /**
   * "image/" (ASCII letters in either case) starts at `i` and is followed by a
   * character that `.` matches.
   */
  predicate ImageMimeMatchAt(s: string, i: int) {
    0 <= i && i + 6 < |s| && LowerAscii(s[i..i + 6]) == "image/" && !IsLineTerminator(s[i + 6])
  }

  /** `/image\/.+/i.test(s)` on a string: the pattern is unanchored. */
  predicate ImageMimeText(s: string) {
    exists i | 0 <= i < |s| :: ImageMimeMatchAt(s, i)
  }

  /**
   * `isImageMimeType(v)`: `test` converts its argument to a string. Only a
   * string can pass: undefined, null, numbers, booleans and plain objects
   * become "undefined", "null", digits, "true"/"false" and "[object Object]".
   */
  predicate IsImageMimeType(v: JsValue) {
    v.Str? && ImageMimeText(v.s)
  }

  /** The test ignores the letter case of "image". */
  lemma ImageMimeIgnoresCase(s: string)
    ensures ImageMimeText(LowerAscii(s)) <==> ImageMimeText(s)
  {
    var l := LowerAscii(s);
    forall i | 0 <= i < |s| ensures ImageMimeMatchAt(l, i) <==> ImageMimeMatchAt(s, i) {
      if i + 6 < |s| {
        LowerAsciiSlice(s, i, i + 6);
        LowerAsciiIdempotent(s[i..i + 6]);
      }
    }
  }

  /** A match anywhere is enough: surrounding text never makes a passing type fail. */
  lemma ImageMimeAnywhere(before: string, s: string, after: string)
    requires ImageMimeText(s)
    ensures ImageMimeText(before + s + after)
  {
    var i :| 0 <= i < |s| && ImageMimeMatchAt(s, i);
    var t := before + s + after;
    assert t[|before| + i..|before| + i + 6] == s[i..i + 6];
    assert t[|before| + i + 6] == s[i + 6];
    assert ImageMimeMatchAt(t, |before| + i);
  }

  lemma ImageMimeExamples()
    ensures ImageMimeText("image/png")
    ensures ImageMimeText("IMAGE/JPEG")
    ensures ImageMimeText("video/x-image/webp")
    ensures !ImageMimeText("image/")
    ensures !ImageMimeText("image/\n")
  {
    assert ImageMimeMatchAt("image/png", 0);
    assert LowerAscii("IMAGE/") == "image/";
    assert ImageMimeMatchAt("IMAGE/JPEG", 0);
    assert "video/x-image/webp"[8..14] == "image/";
    assert ImageMimeMatchAt("video/x-image/webp", 8);
  }

  // ---------------------------------------------------------------------------
  // Option resolution

  datatype OutputType = DataURI | ObjectURL

  /** The four values `getThumbnailDataURI` works with after reading `opts`. */
  datatype ThumbnailOptions = ThumbnailOptions(time: real, size: real, mime: JsValue, output: OutputType)

  const DefaultTime: real := 0.1
  const DefaultSize: real := 480.0
  const DefaultMime: JsValue := Obj(map["type" := Str("image/png")])

  /** `opts.time` if it is a number >= 0, otherwise `def.size` (as written; see TimeFallbackIsDefaultSize). */
  function ResolveTime(time: JsValue): (t: real)
    ensures t >= 0.0
  {
    if time.Num? && time.n >= 0.0 then time.n else DefaultSize
  }

  /** `opts.size` if it is a number > 0, otherwise `def.size`. */
  function ResolveSize(size: JsValue): (s: real)
    ensures s > 0.0
  {
    if size.Num? && size.n > 0.0 then size.n else DefaultSize
  }

  /** `opts.mime` as a whole if it is truthy and its `type` passes the image test, otherwise `def.mime`. */
  function ResolveMime(mime: JsValue): (m: JsValue)
    ensures m.Obj? && "type" in m.props && IsImageMimeType(m.props["type"])
  {
    if IsTruthy(mime) && IsImageMimeType(Get(mime, "type").value) then mime
    else
      assert ImageMimeMatchAt("image/png", 0);
      DefaultMime
  }

  /** `opts.type === 'objectURL'`: strict equality with that exact string. */
  function ResolveOutput(output: JsValue): OutputType {
    if output == Str("objectURL") then ObjectURL else DataURI
  }

  /** What every resolved option set satisfies. */
  predicate ValidOptions(o: ThumbnailOptions) {
    && o.time >= 0.0
    && o.size > 0.0
    && o.mime.Obj?
    && "type" in o.mime.props
    && IsImageMimeType(o.mime.props["type"])
  }

  /**
   * Lines 83-86 of `getThumbnailDataURI`. Reading `opts.time` throws when
   * `opts` is undefined or null (None); the `catch` then swallows the error.
   */
  function ResolveOptions(opts: JsValue): (r: Option<ThumbnailOptions>)
    ensures r.None? <==> opts.Undefined? || opts.Null?
    ensures r.Some? ==> ValidOptions(r.value)
  {
    match Get(opts, "time")
    case None => None
    case Some(time) =>
      Some(ThumbnailOptions(
        ResolveTime(time),
        ResolveSize(Get(opts, "size").value),
        ResolveMime(Get(opts, "mime").value),
        ResolveOutput(Get(opts, "type").value)))
  }

  /** The options object that spells out `o` field by field. */
  function OptionsObject(o: ThumbnailOptions): JsValue {
    Obj(map[
      "time" := Num(o.time),
      "size" := Num(o.size),
      "mime" := o.mime,
      "type" := Str(if o.output == ObjectURL then "objectURL" else "dataURI")])
  }

  /** Valid options pass through resolution unchanged: every accepted value is kept as given. */
  lemma ResolveOptionsRoundTrip(o: ThumbnailOptions)
    requires ValidOptions(o)
    ensures ResolveOptions(OptionsObject(o)) == Some(o)
  {
    var opts := OptionsObject(o);
    assert Get(opts, "mime").value == o.mime;
    assert Get(o.mime, "type").value == o.mime.props["type"];
  }

  /** Resolving again what was resolved changes nothing. */
  lemma ResolveOptionsIdempotent(opts: JsValue)
    requires ResolveOptions(opts).Some?
    ensures ResolveOptions(OptionsObject(ResolveOptions(opts).value)) == ResolveOptions(opts)
  {
    ResolveOptionsRoundTrip(ResolveOptions(opts).value);
  }

  /**
   * An accepted mime object is kept whole, quality included; the default has
   * no quality, so `toDataURL` then uses the browser's own.
   */
  lemma MimeKeptWhole(opts: JsValue)
    requires ResolveOptions(opts).Some?
    ensures var mime := Get(opts, "mime").value;
      var r := ResolveOptions(opts).value.mime;
      && (IsTruthy(mime) && IsImageMimeType(Get(mime, "type").value) ==> r == mime)
      && (r != mime ==> r == DefaultMime && "quality" !in r.props)
  {
  }

  /** Only the exact string "objectURL" selects an object URL. */
  lemma OutputTypeIsStrict(opts: JsValue)
    requires ResolveOptions(opts).Some?
    ensures ResolveOptions(opts).value.output == ObjectURL <==> Get(opts, "type").value == Str("objectURL")
  {
  }

  /**
   * Line 83 falls back to `def.size`, not `def.time`: any `opts` whose time is
   * missing, negative, NaN or not a number resolves to 480 seconds, never 0.1.
   */
  lemma TimeFallbackIsDefaultSize(opts: JsValue)
    requires ResolveOptions(opts).Some?
    requires var time := Get(opts, "time").value; !(time.Num? && time.n >= 0.0)
    ensures ResolveOptions(opts).value.time == DefaultSize
    ensures ResolveOptions(opts).value.time != DefaultTime
  {
  }

  /** A size that is not a positive number (missing, 0, negative, a string) becomes 480; a positive one is kept. */
  lemma SizeFallback(opts: JsValue)
    requires ResolveOptions(opts).Some?
    ensures var size := Get(opts, "size").value;
      !(size.Num? && size.n > 0.0) ==> ResolveOptions(opts).value.size == DefaultSize
    ensures var size := Get(opts, "size").value;
      size.Num? && size.n > 0.0 ==> ResolveOptions(opts).value.size == size.n
  {
  }

  /** With no time given, every video shorter than 480 seconds is asked to seek past its end. */
  lemma DefaultOptionsSeekPastShortVideos(duration: real)
    requires 0.0 <= duration < DefaultSize
    ensures SeekTime(ResolveOptions(Obj(map[])).value.time, duration) > duration
  {
  }

  /** The evidently intended fallback of line 83: `def.time`. */
  function ResolveTimeIntended(time: JsValue): (t: real)
    ensures t >= 0.0
    ensures !(time.Num? && time.n >= 0.0) ==> BetweenZeroAndOne(t)
  {
    if time.Num? && time.n >= 0.0 then time.n else DefaultTime
  }

  /** With the intended fallback, a missing time seeks to a tenth of the video, inside it. */
  lemma IntendedDefaultSeeksIntoVideo(duration: real)
    requires duration >= 0.0
    ensures SeekTime(ResolveTimeIntended(Undefined), duration) == duration / 10.0
    ensures 0.0 <= SeekTime(ResolveTimeIntended(Undefined), duration) <= duration
  {
    RelativeSeekWithinDuration(DefaultTime, duration);
  }

  // ---------------------------------------------------------------------------
  // Seek target

  /** `betweenZeroAndOne(n)`: strictly between, so 0 and 1 themselves are excluded. */
  predicate BetweenZeroAndOne(n: real) {
    n > 0.0 && n < 1.0
  }

  /** Line 58: a fraction of the duration when `0 < time < 1`, otherwise seconds as given. */
  function SeekTime(time: real, duration: real): real {
    if BetweenZeroAndOne(time) then time * duration else time
  }

  /** A relative target lies within the video. */
  lemma RelativeSeekWithinDuration(time: real, duration: real)
    requires BetweenZeroAndOne(time) && duration >= 0.0
    ensures 0.0 <= SeekTime(time, duration) <= duration
    ensures duration > 0.0 ==> 0.0 < SeekTime(time, duration) < duration
  {
  }

  /** Anything else is absolute and is not clamped to the duration; 0 and 1 mean seconds. */
  lemma AbsoluteSeekIsUnclamped(time: real, duration: real)
    requires !BetweenZeroAndOne(time)
    ensures SeekTime(time, duration) == time
    ensures SeekTime(1.0, duration) == 1.0 && SeekTime(0.0, duration) == 0.0
  {
  }

  // ---------------------------------------------------------------------------
  // Canvas size

  /** A JavaScript number as the canvas setters see it: NaN and the infinities all convert to 0. */
  datatype Number = Finite(value: real) | NonFinite

  const TwoTo32: int := 0x1_0000_0000
  /** The largest value a reflected `unsigned long` attribute accepts. */
  const MaxReflected: int := 0x7FFF_FFFF
  const DefaultCanvasWidth: nat := 300
  const DefaultCanvasHeight: nat := 150

  /** Truncation toward zero. */
  function Trunc(x: real): int {
    if x >= 0.0 then x.Floor else -((-x).Floor)
  }

  /** WebIDL `unsigned long` conversion: truncate, then wrap modulo 2^32. */
  function ToUint32(x: Number): (r: nat)
    ensures r < TwoTo32
    ensures x.Finite? && 0.0 <= x.value < TwoTo32 as real ==> r == x.value.Floor
  {
    match x
    case NonFinite => 0
    case Finite(v) => Trunc(v) % TwoTo32
  }

  /** Setting a reflected `unsigned long` attribute: out-of-range values give the default. */
  function Reflect(n: nat, default: nat): (r: nat)
    ensures n > MaxReflected ==> r == default
    ensures n <= MaxReflected ==> r == n
  {
    if n <= MaxReflected then n else default
  }

  /** `videoHeight / videoWidth`: NaN for 0/0 and Infinity for h/0. */
  function AspectRatio(videoWidth: nat, videoHeight: nat): Number {
    if videoWidth == 0 then NonFinite else Finite(videoHeight as real / videoWidth as real)
  }

  /** `w * aspectRatio` for the positive `w` used here. */
  function Scale(w: real, ratio: Number): Number {
    match ratio
    case NonFinite => NonFinite
    case Finite(a) => Finite(w * a)
  }

  /** A canvas element's `width` and `height`, set one after the other (lines 38-41). */
  class Canvas {
    var width: nat
    var height: nat

    /** `document.createElement('canvas')`: 300 by 150. */
    constructor ()
      ensures width == DefaultCanvasWidth && height == DefaultCanvasHeight
    {
      width := DefaultCanvasWidth;
      height := DefaultCanvasHeight;
    }

    method SetWidth(x: Number)
      modifies this`width
      ensures width == Reflect(ToUint32(x), DefaultCanvasWidth)
    {
      width := Reflect(ToUint32(x), DefaultCanvasWidth);
    }

    method SetHeight(x: Number)
      modifies this`height
      ensures height == Reflect(ToUint32(x), DefaultCanvasHeight)
    {
      height := Reflect(ToUint32(x), DefaultCanvasHeight);
    }
  }

  /** The canvas width for requested size `size`. */
  function CanvasWidth(size: real): nat {
    Reflect(ToUint32(Finite(size)), DefaultCanvasWidth)
  }

  /** The canvas height: `size * videoHeight / videoWidth`. */
  function CanvasHeight(size: real, videoWidth: nat, videoHeight: nat): nat {
    Reflect(ToUint32(Scale(size, AspectRatio(videoWidth, videoHeight))), DefaultCanvasHeight)
  }

  /**
   * The width is the requested size whatever the video's natural width (no
   * `min` with it); a fractional size is truncated.
   */
  lemma CanvasWidthIsRequestedSize(size: real)
    requires 0.0 <= size && size.Floor <= MaxReflected
    ensures CanvasWidth(size) == size.Floor
    ensures CanvasWidth(size) as real <= size < CanvasWidth(size) as real + 1.0
  {
  }

  /** The height keeps the video's aspect ratio, truncated. */
  lemma CanvasHeightFollowsAspect(size: real, videoWidth: nat, videoHeight: nat)
    requires size > 0.0 && videoWidth > 0
    requires (size * videoHeight as real / videoWidth as real).Floor <= MaxReflected
    ensures var h := size * videoHeight as real / videoWidth as real;
      CanvasHeight(size, videoWidth, videoHeight) as real <= h < CanvasHeight(size, videoWidth, videoHeight) as real + 1.0
  {
    var h := size * videoHeight as real / videoWidth as real;
    assert size * (videoHeight as real / videoWidth as real) == h;
    assert 0.0 <= h;
  }

  /** A video reporting zero width makes the ratio NaN or Infinity, and the height 0. */
  lemma ZeroWidthVideoGivesZeroHeight(size: real, videoHeight: nat)
    ensures CanvasHeight(size, 0, videoHeight) == 0
  {
  }

  /** Sizes beyond 2^31 - 1 fall back to the default width; beyond 2^32 they wrap. */
  lemma OversizedCanvas()
    ensures CanvasWidth(2147483648.0) == DefaultCanvasWidth
    ensures CanvasWidth(4294967776.0) == 480
    ensures CanvasWidth(480.0) == 480
  {
    assert (2147483648.0).Floor == 2147483648;
    assert (4294967776.0).Floor == 4294967776;
    assert (480.0).Floor == 480;
  }

  // ---------------------------------------------------------------------------
  // The player and the thumbnail lifecycle

  /** What the library does to the `<video>` element, in order. */
  datatype PlayerStep = AssignSrc(url: string) | AssignCurrentTime(time: real) | Play | Pause

  /** What the browser knows about the media once it can play. */
  datatype Media = Media(duration: real, videoWidth: nat, videoHeight: nat)

  /** Which event ends the wait in `getVideo`: `canplay`, `error`, or none ever. */
  datatype LoadSignal = CanPlay | LoadError | LoadSilent

  /** Which event ends the wait in `videoToDataURI`: `seeked`, `error`, or none ever. */
  datatype SeekSignal = Seeked | SeekError | SeekSilent

  /** What `toDataURL`/`toBlob` are given: the canvas size, `mime.type`, `mime.quality` and the output kind. */
  datatype Capture = Capture(width: nat, height: nat, mimeType: JsValue, quality: JsValue, output: OutputType, frameTime: real)

  /** The encoder's answer; a throw (or a null blob) happens inside an event handler or callback. */
  datatype EncodeResult = Encoded(uri: string) | EncodeThrew

  /** How the promise returned by `getThumbnailDataURI` ends. */
  datatype Thumbnail = Uri(value: string) | NoThumbnail | Pending

  /** The `<video>` element `getVideo` creates. */
  class Player {
    var src: string
    var currentTime: real
    var muted: bool
    var autoplay: bool
    var playsInline: bool
    /** Set as the lower-case expando `crossorigin`, not the `crossOrigin` attribute. */
    var crossorigin: string
    var log: seq<PlayerStep>

    /** `getVideo`: the element's flags, then its source. */
    constructor (url: string)
      ensures src == url && currentTime == 0.0
      ensures muted && autoplay && playsInline && crossorigin == "anonymous"
      ensures log == [AssignSrc(url)]
    {
      crossorigin := "anonymous";
      muted := true;
      autoplay := true;
      playsInline := true;
      currentTime := 0.0;
      src := url;
      log := [AssignSrc(url)];
    }

    method SetSrc(url: string)
      modifies this`src, this`log
      ensures src == url && log == old(log) + [AssignSrc(url)]
    {
      src := url;
      log := log + [AssignSrc(url)];
    }

    method SetCurrentTime(t: real)
      modifies this`currentTime, this`log
      ensures currentTime == t && log == old(log) + [AssignCurrentTime(t)]
    {
      currentTime := t;
      log := log + [AssignCurrentTime(t)];
    }

    method PlayVideo()
      modifies this`log
      ensures log == old(log) + [Play]
    {
      log := log + [Play];
    }

    method PauseVideo()
      modifies this`log
      ensures log == old(log) + [Pause]
    {
      log := log + [Pause];
    }
  }

  /** What the `seeked` handler hands to the encoder. */
  function CaptureOf(o: ThumbnailOptions, media: Media): Capture
    requires ValidOptions(o)
  {
    Capture(CanvasWidth(o.size), CanvasHeight(o.size, media.videoWidth, media.videoHeight),
            o.mime.props["type"], Get(o.mime, "quality").value, o.output,
            SeekTime(o.time, media.duration))
  }

  /**
   * The start of the `seeked` handler: a fresh canvas sized from `size` and
   * the aspect ratio, and the arguments of the encoder call.
   */
  method DrawFrame(o: ThumbnailOptions, media: Media, frameTime: real) returns (capture: Capture)
    requires ValidOptions(o)
    ensures frameTime == SeekTime(o.time, media.duration) ==> capture == CaptureOf(o, media)
    ensures capture.width == CanvasWidth(o.size)
    ensures capture.height == CanvasHeight(o.size, media.videoWidth, media.videoHeight)
  {
    var canvas := new Canvas();
    canvas.SetWidth(Finite(o.size));
    canvas.SetHeight(Scale(o.size, AspectRatio(media.videoWidth, media.videoHeight)));
    capture := Capture(canvas.width, canvas.height, Get(o.mime, "type").value, Get(o.mime, "quality").value,
                       o.output, frameTime);
  }

  /** How the thumbnail promise ends once the options are resolved. */
  function ThumbnailOf(o: ThumbnailOptions, media: Media, load: LoadSignal, seek: SeekSignal,
                       encode: Capture -> EncodeResult): Thumbnail
    requires ValidOptions(o)
  {
    match load
    case LoadError => NoThumbnail
    case LoadSilent => Pending
    case CanPlay =>
      match seek
      case SeekError => NoThumbnail
      case SeekSilent => Pending
      case Seeked =>
        match encode(CaptureOf(o, media))
        case Encoded(uri) => Uri(uri)
        case EncodeThrew => Pending
  }

  /** How `getThumbnailDataURI(url, opts)` ends: a missing `opts` is caught and gives undefined. */
  function Outcome(opts: JsValue, media: Media, load: LoadSignal, seek: SeekSignal,
                   encode: Capture -> EncodeResult): Thumbnail
  {
    match ResolveOptions(opts)
    case None => NoThumbnail
    case Some(o) => ThumbnailOf(o, media, load, seek, encode)
  }

  /** Everything done to the player, in order. */
  function Lifecycle(url: string, o: ThumbnailOptions, media: Media, load: LoadSignal, seek: SeekSignal,
                     encode: Capture -> EncodeResult): seq<PlayerStep>
    requires ValidOptions(o)
  {
    [AssignSrc(url)]
    + if load != CanPlay then []
      else [Pause, AssignCurrentTime(SeekTime(o.time, media.duration)), Play, Pause]
           + if ThumbnailOf(o, media, load, seek, encode).Uri? then [AssignSrc("")] else []
  }

  /**
   * `getVideo`: a new player for `url`, paused when `canplay` fires. The
   * promise settles only on `canplay` (the player) or `error` (a rejection).
   */
  method GetVideo(url: string, load: LoadSignal) returns (player: Player)
    ensures fresh(player)
    ensures player.log == [AssignSrc(url)] + (if load == CanPlay then [Pause] else [])
    ensures player.src == url
    ensures player.muted && player.autoplay && player.playsInline && player.crossorigin == "anonymous"
  {
    player := new Player(url);
    if load == CanPlay {
      player.PauseVideo();
    }
  }

  /**
   * `videoToDataURI` on a player that could play: assign the seek target,
   * `play()` and `pause()`, then on `seeked` draw and encode. An encoder throw
   * happens inside the async handler, so the promise stays pending.
   */
  method VideoToDataURI(player: Player, o: ThumbnailOptions, media: Media, seek: SeekSignal,
                        encode: Capture -> EncodeResult)
    returns (result: Thumbnail)
    requires ValidOptions(o)
    modifies player`currentTime, player`log
    ensures result == ThumbnailOf(o, media, CanPlay, seek, encode)
    ensures player.currentTime == SeekTime(o.time, media.duration)
    ensures player.log == old(player.log) + [AssignCurrentTime(SeekTime(o.time, media.duration)), Play, Pause]
  {
    player.SetCurrentTime(SeekTime(o.time, media.duration));
    player.PlayVideo();
    player.PauseVideo();
    if seek == SeekError {
      return NoThumbnail;
    } else if seek == SeekSilent {
      return Pending;
    }
    var capture := DrawFrame(o, media, player.currentTime);
    var encoded := encode(capture);
    if encoded.EncodeThrew? {
      return Pending;
    }
    return Uri(encoded.uri);
  }

  /**
   * `getThumbnailDataURI`: resolve the options, get the player, capture, and
   * only after a thumbnail was produced clear `src`. Any exception is caught
   * and the promise resolves to undefined.
   */
  method GetThumbnailDataURI(url: string, opts: JsValue, media: Media, load: LoadSignal, seek: SeekSignal,
                             encode: Capture -> EncodeResult)
    returns (result: Thumbnail, player: Player?)
    ensures result == Outcome(opts, media, load, seek, encode)
    ensures player == null <==> ResolveOptions(opts).None?
    ensures player != null ==>
      && fresh(player)
      && player.log == Lifecycle(url, ResolveOptions(opts).value, media, load, seek, encode)
      && player.src == (if result.Uri? then "" else url)
      && player.muted && player.autoplay && player.playsInline
  {
    var resolved := ResolveOptions(opts);
    if resolved.None? {
      return NoThumbnail, null;
    }
    var o := resolved.value;
    player := GetVideo(url, load);
    if load == LoadError {
      return NoThumbnail, player;
    } else if load == LoadSilent {
      return Pending, player;
    }
    result := VideoToDataURI(player, o, media, seek, encode);
    if result.Uri? {
      player.SetSrc("");
    }
  }

  /**
   * The order of the lifecycle: the seek target is assigned before `play()`,
   * every `play()` is paused at once, and `src` is reassigned only as the very
   * last step and only when a thumbnail was produced.
   */
  lemma LifecycleOrder(url: string, o: ThumbnailOptions, media: Media, load: LoadSignal,
                                          seek: SeekSignal, encode: Capture -> EncodeResult)
    requires ValidOptions(o)
    ensures var s := Lifecycle(url, o, media, load, seek, encode);
      && |s| >= 1 && s[0] == AssignSrc(url)
      && (forall i, j | 0 <= i < |s| && 0 <= j < |s| && s[i].AssignCurrentTime? && s[j] == Play :: i < j)
      && (forall j | 0 <= j < |s| && s[j] == Play :: j + 1 < |s| && s[j + 1] == Pause)
      && (forall i | 0 <= i < |s| && s[i].AssignCurrentTime? :: s[i].time == SeekTime(o.time, media.duration))
      && (forall i | 0 < i < |s| && s[i].AssignSrc? ::
            i == |s| - 1 && s[i].url == "" && ThumbnailOf(o, media, load, seek, encode).Uri?)
      && (ThumbnailOf(o, media, load, seek, encode).Uri? ==> |s| == 6 && s[5] == AssignSrc(""))
  {
    var s := Lifecycle(url, o, media, load, seek, encode);
    if load == CanPlay {
      var t := SeekTime(o.time, media.duration);
      var tail := if ThumbnailOf(o, media, load, seek, encode).Uri? then [AssignSrc("")] else [];
      assert s == [AssignSrc(url), Pause, AssignCurrentTime(t), Play, Pause] + tail;
    } else {
      assert s == [AssignSrc(url)];
    }
  }

  /** Any failure, or a promise left pending, leaves the player's `src` pointing at the video. */
  lemma FailureKeepsSource(url: string, o: ThumbnailOptions, media: Media, load: LoadSignal,
                           seek: SeekSignal, encode: Capture -> EncodeResult)
    requires ValidOptions(o)
    requires !ThumbnailOf(o, media, load, seek, encode).Uri?
    ensures forall step | step in Lifecycle(url, o, media, load, seek, encode) && step.AssignSrc? :: step == AssignSrc(url)
  {
  }
}
