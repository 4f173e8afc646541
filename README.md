# video-thumbnail.js and its directory browser, modelled in Dafny

This project models three parts of video-thumbnail.js v1.0.0:

- **The thumbnail library** (`src/video-thumbnail.js`). `getThumbnailDataURI(url, opts)` resolves its options against the defaults. It then loads the video into a muted, inline, autoplaying `<video>` player. It seeks to the requested time, draws the frame onto a canvas sized from the requested width and the video's aspect ratio, and returns the encoded image. If the video fails to load or seek, it returns `undefined`.
- **The `folder.api` listing reader** (`src/script.js` and `src/test.js`, which carry the same copy). It classifies each link of a web server's directory listing as folder, file or hidden. It recognises the server (Apache, nginx or IIS) from its `Server` header and reads the Apache size and date columns. It then splits the links into a folders list and a files list.
- **Three helpers of the demo application**: `getSupportedVideoTypes`, `urlToFolder` and `isVideo`.

The browser is not modelled. Its answers become parameters:
- the media element's duration and dimensions;
- whether `canplay`/`seeked` or `error` fires;
- the canvas encoder's output;
- `canPlayType`;
- the response headers;
- the links that the DOM queries return.

The model has four modules:

- `JsText`: the JavaScript string and array behaviour the code relies on. This covers regular-expression character classes, ASCII case folding under the `i` flag, and `split`/`join`/`pop` with a one-character separator.
- `VideoThumbnail`:
  - the option resolution;
  - the seek target;
  - the canvas size, through WebIDL `unsigned long` conversion and the HTML reflection of `width`/`height`;
  - the player, modelled as a class whose fields the library assigns;
  - the whole `getThumbnailDataURI` lifecycle as a method, proved against a function that gives its outcome and its sequence of player operations.
- `FolderApi`:
  - URL classification and naming;
  - server detection;
  - Apache metadata;
  - the partitioning loop of `getLinksFromFrame`, as a method proved against a recursive specification.
- `DirectoryApp`:
  - the supported-types loop, proved against a specification;
  - `urlToFolder`;
  - the exact language of the `isVideo` regular expression.

The model follows the code as written. Where the code does something its authors evidently did not mean, the "## Findings" table lists it. A corrected definition, with its intended property proved, stands beside the as-written one.

In two places the code does not do what its own defaults and comments suggest. The model follows the code in both:
- The default time is 480 seconds, although the defaults object sets `time: 0.1` (src/video-thumbnail.js:74).
- The canvas width is the requested size. It is not capped at the video's natural width, although the demo's configuration calls `size` the "Maximum width of thumbnails" (src/script.js:382).

The model also follows the code where it simply does less than one might expect:
- A seek target past the end is not clamped to the duration.
- An encoder failure leaves the returned promise pending forever. The `catch` at src/video-thumbnail.js:93-95 does not see it, because the encoder runs inside the `seeked` listener, outside the awaited call.
- Version 1.0.0 has no cache, no load timeout, no multi-timestamp batching and no capability probe.

## Model

| member | source | states |
|---|---|---|
| JsText.Split | src/script.js:417 | `split` always returns at least one piece, so `"".split('/')` is `[""]` |
| JsText.Pop | src/script.js:418 | `pop` removes the last element and leaves an empty array empty |
| JsText.JoinSplit | src/script.js:417-419 | joining the pieces of a split with the same separator gives back the original string |
| JsText.SplitLastPiece | src/script.js:117-118 | the last piece of a split is the text after the last separator, or the whole string if there is none |
| JsText.LowerAscii | src/video-thumbnail.js:81 | case folding under the `i` flag keeps the length and folds each character on its own |
| JsText.LowerAsciiIdempotent | src/script.js:150 | folding an already folded string changes nothing |
| FolderApi.IsFolder | src/script.js:96-98 | a URL is a folder URL when its last character is `/`; `UrlType` proves it is typed folder exactly then, unless hidden |
| FolderApi.IsFile | src/script.js:100-102 | a file URL is any URL that is not a folder URL; `UrlType` proves such a URL is typed file unless hidden, so the type is never unknown |
| FolderApi.IsHiddenFileOrFolder | src/script.js:104-107 | the unanchored `/\/\..+$/i` matches at some position; `UrlType` states its language and `HiddenBeatsFolder` gives examples |
| FolderApi.UrlType | src/script.js:84-94 | the type is never unknown; hidden exactly when the URL holds `/.` followed by at least one character and no line terminator up to the end, and this test comes before the folder test; folder exactly when not hidden and the URL ends in `/` |
| FolderApi.HiddenBeatsFolder | src/script.js:104-107 | `/.git/` and `/a/../` are hidden, `/a/` is a folder, and a dot segment after a newline is not hidden |
| FolderApi.Dirname | src/script.js:110-112 | the URL through its last `/` (or `/` when it has none), which is what split, pop, join and a trailing `/` give (`JoinPopSplit`, and `DirectoryApp.UrlToFolder` for src/script.js:416-420); it always ends in `/`, so it is a folder URL |
| FolderApi.PopSplit | src/script.js:110-111 | popping the pieces of a URL split at `/` leaves the pieces of the text before the last `/` |
| FolderApi.JoinPopSplit | src/script.js:110-112 | split, pop, join and a trailing `/` give the URL up to and including its last `/` |
| FolderApi.ParentFolder | src/script.js:109-114 | the parent of a URL is the folder part of the URL with its last `/` and what follows it removed, or `/` when it has no `/`; it is always a folder URL |
| FolderApi.UrlToFoldername | src/script.js:116-119 | a folder's name is the segment before its trailing `/`; there is a name for every folder URL, and none (`undefined`) only when the URL has no `/` |
| FolderApi.FoldernamePiece | src/script.js:117-118 | the folder name is the second-to-last piece of the URL split at `/` |
| FolderApi.UrlToFilename | src/script.js:121-125 | a file's name is the text after the last `/` when that text is non-empty and has no `/`; otherwise the whole URL |
| FolderApi.FilenameExamples | src/script.js:121-125 | `.../v/clip.mp4` names `clip.mp4`; a folder URL and a bare name come back unchanged |
| FolderApi.ServerFromName | src/script.js:148-162 | a non-generic result's token occurs in the lower-cased header; generic exactly when none of the three tokens occurs; `nginx` takes precedence over `apache` and `iis` |
| FolderApi.ServerFromNameIgnoresCase | src/script.js:150 | detection does not depend on letter case |
| FolderApi.ServerPrecedence | src/test.js:152-161 | an Apache header that mentions nginx is nginx; an empty header is generic |
| FolderApi.IisServer | src/script.js:156-157 | `Microsoft-IIS/10.0` is IIS |
| FolderApi.GetServer | src/script.js:135-162 | the call throws exactly when `getHeaderData` returned `{}` (an empty URL or a failed request), which has no `get`; a missing `Server` header is generic; otherwise the header's name decides |
| FolderApi.FirstDigit | src/script.js:190-191 | the search for `\d` finds the first digit at or after the start, or reports that none exists |
| FolderApi.DigitRunEnd | src/script.js:190-191 | the greedy `\d+` ends at the first non-digit |
| FolderApi.ApacheSize | src/script.js:187-205 | a size cell without digits gives no size; a cell with a digit gives a number |
| FolderApi.ApacheSizeOfFirstNumber | src/script.js:190-204 | the first run of digits is read wherever it starts, so blank padding before it is skipped; the size is those digits times 1024 to the power of the unit's rank (B, K, M, G, T), the digits alone when no word character follows them, and NaN for any other word character after them |
| FolderApi.FirstDigitAt | src/script.js:190-191 | the search for `\d` stops at the first digit when every character before it is not a digit |
| FolderApi.DigitRunEndOfDigits | src/script.js:190-191 | a maximal run of digits is the one the greedy match takes |
| FolderApi.ApacheSizeExamples | src/script.js:190-203 | `1.5M` is 1 byte: the unit must follow the first digits directly |
| FolderApi.ApacheSizeMegabytes | src/script.js:194-203 | any number directly followed by `M` is that number times 1024² bytes |
| FolderApi.ApacheSizePaddedCell | src/script.js:190-203 | a blank-padded ` 12K` is 12288 bytes |
| FolderApi.ApacheSizeEdgeCases | src/script.js:193-203 | `7` is 7 bytes, a lower-case `12k` is NaN, and `-` is no size |
| FolderApi.FindDateStamp | src/script.js:172-185 | a date is found exactly when the cell holds a `YYYY-MM-DD HH:MM` stamp |
| FolderApi.ApacheMetadata | src/script.js:165-208 | an Apache row has a date exactly when its date cell exists and holds a stamp, and the date is the first stamp in that cell; the size is `ApacheSize` of the fourth cell when it exists, and no size otherwise |
| FolderApi.LinkToMetadata | src/script.js:127-133 | a generic server has no parser and yields no metadata |
| FolderApi.GenericServerHasNoMetadata | src/test.js:127-133 | entries from a generic server carry neither size nor date |
| FolderApi.SelectLinks | src/script.js:280-298 | Apache reads links inside table cells, or every link when no cell holds one; other servers read every link |
| FolderApi.GetLinksFromFrame | src/script.js:277-341 | throws when the server check throws or when the first link is hidden; otherwise returns the detected server and, in link order, the entries that the loop pushes onto the folders and files lists |
| FolderApi.RouteOf | src/script.js:305-320 | the list a link goes to: folders for a folder URL, files for a file URL, and for a hidden URL whatever the previous link set, or none when every link so far is hidden; `RouteIsNearestVisible` proves this characterisation |
| FolderApi.MakeEntry | src/script.js:303-335 | the entry pushed for a link: its URL, its name by type, its metadata and, on the folders list, its folder type; `MakeEntryUrl`, `EntryMetadata`, `FileEntryContents` and `FolderEntryType` state what it holds |
| FolderApi.FolderOverride | src/script.js:326-335 | the parent test comes before the root test; `FolderEntryType`, `ParentWinsOverRoot` and `ApacheUndatedFolderIsParent` state the resulting types |
| FolderApi.RoutedStep | src/script.js:337 | one iteration appends the link's entry to the list `target` names and leaves the other list unchanged |
| FolderApi.RouteIsNearestVisible | src/script.js:307-321 | `target` is unset exactly while every link so far is hidden; otherwise it names the list of the nearest non-hidden link at or before the current one |
| FolderApi.FirstVisibleRoutesAll | src/script.js:307-337 | when the first link is not hidden, every link has a list to go to |
| FolderApi.RoutedPartition | src/script.js:302-339 | when every link has a list, the folders and files together hold exactly one entry per link |
| FolderApi.VisibleLinksKeepOrder | src/test.js:302-339 | without hidden links, the folders list holds the folder URLs and the files list the file URLs, each in link order |
| FolderApi.UrlsAppend | src/script.js:337 | appending an entry appends its URL to the list's URLs |
| FolderApi.MakeEntryUrl | src/script.js:309 | each entry keeps the URL of its link |
| FolderApi.EntryMetadata | src/script.js:323-324 | an entry has a size exactly when the metadata size is a non-zero number, and then it is that number, so 0 and NaN are dropped; the date is always copied |
| FolderApi.FileEntryContents | src/script.js:317-319 | a file entry keeps its URL, is named after its file, has no folder type and carries the link's date |
| FolderApi.ApacheSizeZero | src/script.js:194-203 | a size cell of `0` reads as the number 0 |
| FolderApi.ZeroSizeCellDropped | src/script.js:323 | whatever the link's URL, date cell, base URL and list, an Apache size cell of `0` gives an entry without a size |
| FolderApi.NaNSizeCellDropped | src/script.js:323 | whatever the link's URL, date cell, base URL and list, an Apache size cell of `12k` gives NaN and so an entry without a size |
| FolderApi.UrlsOfPushed | src/script.js:302-337 | the URLs on a list are those of the links routed to it, in link order |
| FolderApi.VisibleRoutedUrls | src/script.js:311-320 | without hidden links, exactly the folder URLs are routed to the folders list and the others to the files list |
| FolderApi.FolderEntryType | src/test.js:311-335 | a folder entry's name is the folder name of its URL, which always exists; its type is parent, root or child by the override rules, with the parent test first |
| FolderApi.ParentWinsOverRoot | src/script.js:326-335 | when `/` is also the base URL's parent, the parent test runs first and `/` is typed parent |
| FolderApi.ApacheUndatedFolderIsParent | src/script.js:327 | on Apache a folder row without a date is typed parent |
| FolderApi.HiddenLinkJoinsPreviousList | src/script.js:307-337 | as written, a hidden link after a folder lands in the folders list without a name |
| FolderApi.VisibleRoutedKinds | src/script.js:311-321 | in the corrected partition, every entry on a list has that list's type |
| FolderApi.VisibleRoutedAgrees | src/script.js:302-339 | without hidden links, the corrected partition equals the one the code computes |
| VideoThumbnail.Get | src/video-thumbnail.js:83-86 | reading a property throws only on `undefined` and `null`; a defined value read comes from the object's own properties |
| VideoThumbnail.ImageMimeText | src/video-thumbnail.js:81 | the unanchored `/image\/.+/i` matches at some position of the text; `ImageMimeIgnoresCase`, `ImageMimeAnywhere` and `ImageMimeExamples` state its language |
| VideoThumbnail.IsImageMimeType | src/video-thumbnail.js:81 | only a string value can pass the test; `ResolveMime` proves the resolved mime passes it |
| VideoThumbnail.ImageMimeIgnoresCase | src/video-thumbnail.js:81 | the `image/.+` test ignores letter case |
| VideoThumbnail.ImageMimeAnywhere | src/video-thumbnail.js:81 | the pattern is unanchored: a match anywhere in the text passes |
| VideoThumbnail.ImageMimeExamples | src/video-thumbnail.js:81 | `image/png`, `IMAGE/JPEG` and `video/x-image/webp` pass; `image/` alone or followed by a newline fails |
| VideoThumbnail.ResolveTime | src/video-thumbnail.js:83 | the resolved time is never negative |
| VideoThumbnail.ResolveSize | src/video-thumbnail.js:84 | the resolved size is always positive |
| VideoThumbnail.ResolveMime | src/video-thumbnail.js:85 | the resolved mime is an object whose `type` passes the image test |
| VideoThumbnail.SizeFallback | src/video-thumbnail.js:84 | a positive numeric size is kept as given; anything else becomes the default 480 |
| VideoThumbnail.ResolveOutput | src/video-thumbnail.js:86 | the output type from the `type` option, checked with `===`; `OutputTypeIsStrict` proves which values select an object URL |
| VideoThumbnail.ResolveOptions | src/video-thumbnail.js:80-86 | reading the options throws exactly when `opts` is `undefined` or `null`; otherwise every resolved option is valid |
| VideoThumbnail.ResolveOptionsRoundTrip | src/video-thumbnail.js:83-86 | valid options passed back in as an object resolve to themselves |
| VideoThumbnail.ResolveOptionsIdempotent | src/video-thumbnail.js:83-86 | resolving already resolved options changes nothing |
| VideoThumbnail.MimeKeptWhole | src/video-thumbnail.js:85 | an accepted mime object is passed on whole, with its quality and other properties |
| VideoThumbnail.OutputTypeIsStrict | src/video-thumbnail.js:86 | the output is an object URL exactly when `type` is the string `objectURL` |
| VideoThumbnail.TimeFallbackIsDefaultSize | src/video-thumbnail.js:73-83 | a missing or invalid time falls back to the default size, 480, and not to the default time, 0.1 |
| VideoThumbnail.DefaultOptionsSeekPastShortVideos | src/video-thumbnail.js:57-83 | with the default time, any video shorter than 480 seconds is asked to seek past its end |
| VideoThumbnail.ResolveTimeIntended | src/video-thumbnail.js:83 | with the intended fallback, a missing or invalid time becomes a relative seek |
| VideoThumbnail.IntendedDefaultSeeksIntoVideo | src/video-thumbnail.js:74 | the intended default seeks to a tenth of the duration, inside the video |
| VideoThumbnail.BetweenZeroAndOne | src/video-thumbnail.js:68-70 | the open interval test `0 < n < 1`; `RelativeSeekWithinDuration` and `AbsoluteSeekIsUnclamped` show its effect on the seek |
| VideoThumbnail.SeekTime | src/video-thumbnail.js:57-59 | the seek target, relative inside the open interval and absolute otherwise; `RelativeSeekWithinDuration` and `AbsoluteSeekIsUnclamped` state its bounds |
| VideoThumbnail.RelativeSeekWithinDuration | src/video-thumbnail.js:57-58 | a time strictly between 0 and 1 is a fraction of the duration and lands inside the video |
| VideoThumbnail.AbsoluteSeekIsUnclamped | src/video-thumbnail.js:57-70 | any other time, including 0 and 1, is seconds and is not clamped to the duration |
| VideoThumbnail.ToUint32 | src/video-thumbnail.js:40-41 | the converted value is below 2³², and a non-negative value in range is truncated |
| VideoThumbnail.Reflect | src/video-thumbnail.js:40-41 | an assigned dimension up to 2³¹−1 is kept; a larger one resets to the default |
| VideoThumbnail.CanvasWidth | src/video-thumbnail.js:36-40 | the canvas width after `c.width = w`; `CanvasWidthIsRequestedSize` and `OversizedCanvas` state its value |
| VideoThumbnail.CanvasHeight | src/video-thumbnail.js:35-41 | the canvas height after `c.height = h`; `CanvasHeightFollowsAspect` and `ZeroWidthVideoGivesZeroHeight` state its value |
| VideoThumbnail.Canvas.constructor | src/video-thumbnail.js:38 | a new canvas is 300 by 150 |
| VideoThumbnail.Canvas.SetWidth | src/video-thumbnail.js:40 | assigning `width` stores the converted and reflected value and leaves `height` unchanged |
| VideoThumbnail.Canvas.SetHeight | src/video-thumbnail.js:41 | assigning `height` stores the converted and reflected value and leaves `width` unchanged |
| VideoThumbnail.CanvasWidthIsRequestedSize | src/video-thumbnail.js:36-40 | the canvas width is the requested size truncated to an integer |
| VideoThumbnail.CanvasHeightFollowsAspect | src/video-thumbnail.js:35-41 | the canvas height is the size times height over width, truncated |
| VideoThumbnail.ZeroWidthVideoGivesZeroHeight | src/video-thumbnail.js:35-41 | a video without width gives a NaN or infinite aspect ratio and a canvas of height 0 |
| VideoThumbnail.OversizedCanvas | src/video-thumbnail.js:40 | a width of 2³¹ resets to 300; 2³²+480 wraps around to 480 |
| VideoThumbnail.Player.constructor | src/video-thumbnail.js:8-25 | a new player has the URL as its source, a current time of 0, and is muted, autoplaying, inline and anonymous |
| VideoThumbnail.Player.SetSrc | src/video-thumbnail.js:90 | assigning `src` records the assignment and changes only the source |
| VideoThumbnail.Player.SetCurrentTime | src/video-thumbnail.js:59 | assigning `currentTime` records the seek and changes only the time |
| VideoThumbnail.Player.PlayVideo | src/video-thumbnail.js:62 | `play()` is recorded and changes no field |
| VideoThumbnail.Player.PauseVideo | src/video-thumbnail.js:63 | `pause()` is recorded and changes no field |
| VideoThumbnail.DrawFrame | src/video-thumbnail.js:35-44 | the frame is drawn on a canvas sized by the canvas rules; at the computed seek time it is the specified capture |
| VideoThumbnail.GetVideo | src/video-thumbnail.js:8-28 | the new player gets the URL and the iOS flags and is paused once `canplay` fires |
| VideoThumbnail.VideoToDataURI | src/video-thumbnail.js:30-66 | the player seeks to the computed time and then plays and pauses; the result is the specified outcome of the seek and the encoding |
| VideoThumbnail.GetThumbnailDataURI | src/video-thumbnail.js:72-96 | the result is the specified outcome; no player exists exactly when reading the options throws; the player's operations are the specified lifecycle, and its source is cleared exactly on success |
| VideoThumbnail.ThumbnailOf | src/video-thumbnail.js:30-66 | the thumbnail for resolved options: none when loading or seeking raises `error`, pending when neither event fires or the encoder throws, the encoded image otherwise; `GetThumbnailDataURI` proves the method returns it |
| VideoThumbnail.Outcome | src/video-thumbnail.js:72-96 | the result of the whole call: none when reading the options throws, otherwise the thumbnail for the resolved options; `GetThumbnailDataURI` proves the method returns it |
| VideoThumbnail.Lifecycle | src/video-thumbnail.js:8-90 | the player operations in order: assign the source; once `canplay` fires, pause, seek, play and pause; clear the source only on success; `LifecycleOrder` and `FailureKeepsSource` state its order |
| VideoThumbnail.LifecycleOrder | src/video-thumbnail.js:88-90 | the source is assigned first, the seek comes before play and pause, and clearing the source comes last |
| VideoThumbnail.FailureKeepsSource | src/video-thumbnail.js:88-95 | when no thumbnail is produced, the source is never cleared |
| DirectoryApp.GetSupportedVideoTypes | src/script.js:392-414 | the supported MIME types and extensions are those of the playable table rows, in table order |
| DirectoryApp.Playable | src/script.js:406-411 | the table rows `canPlayType` accepts, in table order; `PlayableMembers`, `PlayableSnoc` and `PlayableAll` state which rows those are |
| DirectoryApp.PlayableSnoc | src/script.js:406-411 | each row is checked on its own, in table order |
| DirectoryApp.ListsSnoc | src/script.js:408-409 | a playable row appends its MIME type and all its extensions |
| DirectoryApp.PlayableMembers | src/script.js:407 | a row is playable exactly when it is in the table and `canPlayType` answers non-empty |
| DirectoryApp.MimesMembers | src/script.js:409 | a MIME type is listed exactly when some row has it |
| DirectoryApp.ExtensionsMembers | src/script.js:408 | an extension is listed exactly when some row has it |
| DirectoryApp.SupportedMimeIffPlayable | src/test.js:407-412 | a MIME type is supported exactly when some table row has it and `canPlayType` accepts it |
| DirectoryApp.PlayableAll | src/script.js:406-411 | when every row is playable, all rows are kept |
| DirectoryApp.TableLists | src/script.js:398-403 | the table lists the six extensions and four MIME types in order |
| DirectoryApp.AllPlayable | src/test.js:399-412 | a browser that plays everything supports all six extensions and four MIME types, in table order |
| DirectoryApp.TableExtensionsArePlain | src/script.js:398-403 | every extension in the table is lower-case letters and digits |
| DirectoryApp.SupportedExtensionsArePlain | src/script.js:453 | the extensions spliced into the `isVideo` pattern contain no regular-expression metacharacters |
| DirectoryApp.UrlToFolder | src/script.js:416-420 | the result is the URL up to and including its last `/` |
| DirectoryApp.UrlToFolderShape | src/test.js:417-421 | the result is a folder URL; a folder URL is unchanged; a URL without `/` gives `/` |
| DirectoryApp.UrlToFolderIdempotent | src/script.js:416-420 | applying it twice is the same as once |
| DirectoryApp.RepeatsShape | src/script.js:453 | text matched by the repeated extension group ends with one of the extensions and holds only plain characters |
| DirectoryApp.EndsWithSuffix | src/script.js:453 | a suffix of a suffix is a suffix |
| DirectoryApp.PlainFoldedIsNotTerminator | src/script.js:453 | a character that folds to a plain one is not a line terminator |
| DirectoryApp.IsVideoEndsWithExtension | src/script.js:452-455 | a name that passes ends, ignoring case, with an extension that is preceded by a character other than a line terminator |
| DirectoryApp.EndsWithExtensionIsVideo | src/script.js:452-455 | a name that ends, ignoring case, with an extension preceded by a character other than a line terminator passes |
| DirectoryApp.IsVideo | src/script.js:452-455 | the as-written pattern matches the name case-insensitively; `IsVideoIff` states its exact language |
| DirectoryApp.IsVideoIff | src/test.js:453-456 | both directions together: the exact language of the pattern |
| DirectoryApp.IsVideoWithoutExtensions | src/test.js:453-456 | with no supported extensions, the pattern passes any name whose last character is not a line terminator |
| DirectoryApp.IsVideoAcceptsWithoutDot | src/script.js:453 | as written, `clipmp4` passes for `mp4`, and `MOVIE.MKV` passes for `mkv` |
| DirectoryApp.IsVideoRejects | src/script.js:453 | a bare `mp4` does not pass, since one character must precede the extension |
| DirectoryApp.IsVideoRejectsFolder | src/script.js:453 | `clip.mp4/` does not pass, since the extension must end the name |
| DirectoryApp.IsVideoIntendedNeedsDot | src/script.js:453 | the intended pattern passes only names that contain a dot and also pass as written; it rejects `clipmp4` |

## Left out

- The DOM, the canvas pixels and the image encoders are left out. The encoder is a parameter that returns an encoded string or throws. `toBlob` and `toDataURL` are not told apart beyond the output type.
- Event and promise plumbing is left out. Listeners are modelled as firing once. Repeated `canplay`/`seeked` events, the `error` listener left attached after loading, and rejection of the `play()` promise are not modelled.
- The browser's own clamping of `currentTime` is left out. The model records the time the library assigns.
- The `crossorigin` property assignment is modelled as recorded. The player field the browser reads is `crossOrigin`, so the assignment has no effect on the request.
- `fetch`, iframe loading and the header request are replaced by their results: the header data and the link lists each query returns.
- Parsing of the nginx and IIS listing formats is not part of this model. Their metadata is an input of each link.
- Dates are carried as the matched `YYYY-MM-DD HH:MM` text. `Date` construction is left out. A `Date` object is always truthy, so only its presence matters.
- Numbers are real numbers. IEEE-754 rounding, infinities in the options, and `parseInt` precision above 2⁵³ are left out.
- A media duration is a finite real number. The infinite duration of a live stream is left out. There, a relative seek would assign `Infinity` to `currentTime`. That assignment throws at src/video-thumbnail.js:59, inside the awaited call, so the `catch` would turn it into `undefined`.
- `JsValue` has no arrays, functions, symbols or prototype chains. Options objects with getters or inherited properties are left out.
- The `Server` header is lower-cased with ASCII rules. No non-ASCII character lower-cases into any of the three server tokens.
- The demo application's UI is left out: templates, rendering, thumbnail timing statistics, `urlToLabel`, `sortFiles`, `fillCache` and `cacheSize`. It is not part of this model.
- Console logging of failures is left out.
- The `fallback` metadata parser is left out. `linkToMetadata` looks parsers up by server name and there is none named `generic`, so it is never called.
- VideoThumbnail.Get: models only own properties of plain objects and reads of primitives, which give `undefined`.
- DirectoryApp.IsVideo: defined only for extensions made of letters and digits. `SupportedExtensionsArePlain` shows that every extension the application supplies is one.

## Findings

| source | as written | input that shows it | evidently intended | confidence | as-written member | corrected member |
|---|---|---|---|---|---|---|
| src/video-thumbnail.js:83 | a missing or invalid `time` falls back to `def.size` (480 seconds) | `{}` on a 60-second video: the seek target is 480, past the end | fall back to `def.time`, a tenth of the video | high; not executed | VideoThumbnail.TimeFallbackIsDefaultSize | VideoThumbnail.IntendedDefaultSeeksIntoVideo |
| src/script.js:453 | the template literal turns `\.` into `.`, so any character may precede the extension | `clipmp4` with extension `mp4` is a video | `\\.`: a literal dot before the extension | high; not executed | DirectoryApp.IsVideoAcceptsWithoutDot | DirectoryApp.IsVideoIntendedNeedsDot |
| src/script.js:307-337 | a hidden link leaves `target` as the previous iteration set it, so it joins the previous link's list (or `push` throws when it comes first) | links `/a/`, `/a/.env`: `/a/.env` lands in the folders list without a name | hidden links are skipped | medium; not executed | FolderApi.HiddenLinkJoinsPreviousList | FolderApi.VisibleRoutedKinds |
