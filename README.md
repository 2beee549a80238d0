# Sticker pack to emoji pack: a Dafny model of the converter core

This project models the converter core of `tg-sticker-to-emoji`: a tool that downloads a Telegram sticker set, turns each sticker into a custom-emoji file and publishes the files as an emoji pack. The core lives in `src/sticker_to_emoji/converter.py`, and the model covers:

- **Classifying a sticker document.** `is_video_sticker` and `is_animated_sticker`, and the three-way branch of the conversion loop:
  - a `video/webm` sticker is copied as it is;
  - a TGS (gzipped Lottie) sticker is rendered to a WEBM clip, or else to a PNG of its first frame, or else skipped;
  - anything else is decoded, thumbnailed to at most 100x100 and centred on a transparent 100x100 PNG canvas.
- **The frame budget of the WEBM render.** `frames_to_render = min(total_frames, int(fps * 3.0))` and the duration `frames_to_render / fps`. The render loop over frames 0, 1, ... is modelled as a method.
- **Canvas placement.** The centring offset `(100 - w) // 2` of the static path, and the paste at the origin of the first-frame path.
- **The conversion loop `download_and_convert_stickers`.** It stops before downloading once `limit` emojis exist. It picks each glyph, with a default. It numbers each file from the current success count (`emoji_{n:03d}_{glyph}{ext}`). It appends `(path, glyph, tag)` records in input order. It counts skips.
- **The pack-name rules.** The short name extracted from a pack link (`get_sticker_pack`) and the `_by_<bot>` suffix.
- **The upload.** The content type of each uploaded file, the upload loop that keeps the accepted uploads, and the refusal to create a pack when nothing was uploaded.

Everything outside the process is an input. A `Sticker` carries its MIME type and attributes, plus the outcome of each external step:
- whether the download succeeds;
- what the animation library reports (parses, frame count, frame rate, which frames fail to render);
- whether the encoder succeeds;
- what image decoding yields.

Whether the encoder is installed is a parameter. The Bot API replies to uploads and to pack creation are parameters too.

Modules:
- `Text`: `startswith`/`endswith`, `split(c)[-1]`, and zero-padded decimals.
- `Stickers`: the sticker document, the classifier and the glyph choice.
- `Canvas`: pasted layers and centring.
- `Animation`: the frame budget, the WEBM render and the first-frame render.
- `Conversion`: one iteration (`Process` = `Place` after `Prepare`) and the whole loop.
  - `Run`/`Convert` is the reference definition of the loop.
  - `ConvertStickers` is the loop itself, proved to compute `Convert`; `ConvertOne` is its `try` block.
- `Publish`: pack names, content types and the upload step.

Behaviour of the code that the model keeps as written:
- **Classification order.** `video/webm` is tested first (line 225 before line 229), so a `video/webm` document named `*.tgs` is copied as video (`Stickers.ClassifyPrecedence`).
- **Animated tag.** A TGS sticker rendered to WEBM is tagged `video`, like a copied video (line 237).
- **Skip tally.** Only a TGS sticker whose two renders both fail is counted as skipped (lines 241-244). A failed download or image decode is caught at lines 262-264 and counted nowhere (`Conversion.ConvertTally`, `Conversion.FateCases`).
- **First-frame placement.** The comment at line 76 says the frame is centred, but it is pasted at (0, 0) (line 78). Since the frame is rendered at the canvas size, the result is the same (`Canvas.FirstFrameCentred`).
- **Empty frame budget.** No test rejects a frame budget of 0 (lines 105-108): the encoder is run on an empty frame directory. The model takes the encoder to fail on an empty frame list.

## Model

| member | source | states |
|---|---|---|
| Stickers.HasTgsFileNameIff | src/sticker_to_emoji/converter.py:50-53 | the attribute scan of `is_animated_sticker` is true exactly when some file-name attribute ends in `.tgs` |
| Stickers.IsVideo | src/sticker_to_emoji/converter.py:56-58 | definition of `is_video_sticker`; its role in the branch order is given by `Stickers.Classify` and `Stickers.ClassifyPrecedence` |
| Stickers.IsAnimated | src/sticker_to_emoji/converter.py:48-54 | definition of `is_animated_sticker` (TGS MIME type or a `.tgs` file name); the file-name scan is characterised by `Stickers.HasTgsFileNameIff` |
| Stickers.Classify | src/sticker_to_emoji/converter.py:206-245 | the branch is video exactly for a `video/webm` MIME type, TGS exactly for a non-video TGS document, static otherwise |
| Stickers.ClassifyPrecedence | src/sticker_to_emoji/converter.py:48-58 | a `.tgs` file name selects the TGS path unless the MIME type is `video/webm`, which wins |
| Stickers.Glyph | src/sticker_to_emoji/converter.py:199-203 | the glyph of a sticker is never empty |
| Stickers.GlyphSpec | src/sticker_to_emoji/converter.py:199-203 | the glyph is the first sticker attribute's `alt`, or the default when that `alt` is empty or there is no sticker attribute |
| Canvas.CentreOffset | src/sticker_to_emoji/converter.py:254 | the offset keeps the image on the canvas, and the margin before it equals the margin after it or is one pixel smaller |
| Canvas.StaticLayer | src/sticker_to_emoji/converter.py:251-255 | a thumbnail of at most 100x100 is pasted wholly inside the 100x100 canvas and centred on both axes |
| Canvas.FirstFrameLayer | src/sticker_to_emoji/converter.py:77-78 | the first frame is pasted at (0, 0) on a canvas of its own size, and lies wholly inside it |
| Canvas.CentredUnique | src/sticker_to_emoji/converter.py:254 | centring determines the offsets: two centred layers of equal sizes are equal |
| Canvas.FirstFrameCentred | src/sticker_to_emoji/converter.py:77-78 | pasting a canvas-sized frame at the origin centres it, so omitting the centring loses nothing |
| Animation.Trunc | src/sticker_to_emoji/converter.py:107 | `int()` of a real truncates toward zero, for both signs |
| Animation.FrameBudget | src/sticker_to_emoji/converter.py:105-108 | definition of `frames_to_render = min(total_frames, int(fps * 3.0))`; its meaning is given by `Animation.FrameBudgetBounds` and `Animation.ShortAnimationWhole` |
| Animation.FrameBudgetBounds | src/sticker_to_emoji/converter.py:105-108 | for a positive frame rate, the budget is between 0 and the frame count, fits in three seconds, and is the whole animation or as many frames as fit |
| Animation.ShortAnimationWhole | src/sticker_to_emoji/converter.py:105-108 | an animation of at most three seconds is rendered whole |
| Animation.DurationBound | src/sticker_to_emoji/converter.py:131 | `frames_to_render / fps` never exceeds three seconds |
| Animation.Range | src/sticker_to_emoji/converter.py:115 | `range(n)` is the frame numbers 0 to n - 1 in order, and is empty for n <= 0 |
| Animation.WebmOutcome | src/sticker_to_emoji/converter.py:100-153 | a clip is made exactly when the animation parses with non-zero frame count and rate, every frame of the budget renders, the budget is not empty and the encoder is installed and succeeds; the clip is frames 0 to `frames_to_render - 1` with duration `frames_to_render / fps`, at most three seconds |
| Animation.RenderWebm | src/sticker_to_emoji/converter.py:87-156 | the render returns the clip `WebmOutcome` describes; frames are written in order from 0 and none of them failed; all frames of the budget are written unless one fails, in which case the loop stops at the first failing frame; nothing is written when the metadata guard fails |
| Animation.FirstFramePng | src/sticker_to_emoji/converter.py:60-85 | the first-frame render succeeds exactly when the animation parses and frame 0 renders; the frame is 100x100, pasted at (0, 0), and covers the 100x100 canvas |
| Text.AfterLast | src/sticker_to_emoji/converter.py:164 | `split(c)[-1]` is a suffix of the string that contains no `c` |
| Text.StartsWith | src/sticker_to_emoji/converter.py:165 | definition of `str.startswith`; its meaning in use is given by `Publish.UploadName`, `Publish.FetchNameAddEmoji` and `Publish.FetchNameLastSegment` |
| Text.EndsWith | src/sticker_to_emoji/converter.py:52 | definition of `str.endswith`; its meaning in use is given by `Stickers.HasTgsFileNameIff`, `Publish.UploadName` and `Publish.ExtensionTellsContentType` |
| Text.AfterLastBoundary | src/sticker_to_emoji/converter.py:164 | that suffix is the whole string or starts right after a `c`, so it is the longest such suffix |
| Text.AfterLastAbsent | src/sticker_to_emoji/converter.py:164 | a string without `c` is returned whole |
| Text.AfterLastAppend | src/sticker_to_emoji/converter.py:166 | the text after a `c` that no other `c` follows is what `split(c)[-1]` returns |
| Text.AfterLastInTail | src/sticker_to_emoji/converter.py:166 | once a `c` occurs in `x`, `split(c)[-1]` of anything followed by `x` is that of `x` |
| Text.Decimal | src/sticker_to_emoji/converter.py:217 | `str(n)` is a non-empty digit string denoting `n`, with no leading zero unless it is `0`, one digit long exactly below 10 |
| Text.ZeroPadded | src/sticker_to_emoji/converter.py:217 | `{n:03d}` is a digit string denoting `n`, at least three digits long, and longer only as the leading-zero-free spelling of `n` |
| Text.DecimalMagnitude | src/sticker_to_emoji/converter.py:217 | `str(n)` has `k` digits only when `10^(k-1) <= n < 10^k` (one digit for every `n < 10`) |
| Text.DecimalLength | src/sticker_to_emoji/converter.py:217 | `str(n)` has at most three digits exactly when `n < 1000` |
| Text.ZeroPaddedThree | src/sticker_to_emoji/converter.py:217 | `{n:03d}` is exactly three digits below 1000 and `str(n)` from 1000 on |
| Text.DigitsBeforeSeparator | src/sticker_to_emoji/converter.py:217 | a digit string followed by a non-digit separator is recovered from the text that contains it |
| Conversion.FileNameStem | src/sticker_to_emoji/converter.py:217 | the file name is a stem shared by every extension, followed by the extension |
| Conversion.FileName | src/sticker_to_emoji/converter.py:217 | definition of `f"emoji_{n:03d}_{emoji}{ext}"`; its meaning is given by `Conversion.FileNameStem`, `Conversion.FileNameNumber` and `Text.ZeroPaddedThree` |
| Conversion.FormatName | src/sticker_to_emoji/converter.py:209-215 | definition of the `sticker_format` tag (`video` or `static`, also set at line 237); its meaning is given by `Conversion.ProcessShape` and `Publish.ContentType` |
| Conversion.Extension | src/sticker_to_emoji/converter.py:209-215 | definition of `file_ext` for a tag (`.webm` or `.png`); its meaning is given by `Publish.ExtensionTellsContentType` and `Conversion.ConvertNames` |
| Conversion.WithSuffix | src/sticker_to_emoji/converter.py:231 | definition of `Path.with_suffix` on a file name; its meaning is given by `Conversion.WithSuffixReplaces` and `Conversion.PngToWebm` |
| Conversion.WithSuffixReplaces | src/sticker_to_emoji/converter.py:231 | `with_suffix` replaces the final extension of a name that has a non-empty stem |
| Conversion.PngToWebm | src/sticker_to_emoji/converter.py:231-236 | renaming the `.png` file name of emoji `n` with `with_suffix('.webm')` gives the `.webm` name of the same number and glyph |
| Conversion.FileNameNumber | src/sticker_to_emoji/converter.py:217 | an emoji file name determines its number |
| Conversion.NamesDistinct | src/sticker_to_emoji/converter.py:217 | records with different numbers have different file names |
| Conversion.ProcessFate | src/sticker_to_emoji/converter.py:222-264 | an iteration yields a record, a skip or a dropped exception according to the sticker's fate, whatever its number |
| Conversion.Prepare | src/sticker_to_emoji/converter.py:199-258 | definition of one iteration before numbering (glyph, branch, render or decode); its meaning is given by `Conversion.PrepareFate` |
| Conversion.Process | src/sticker_to_emoji/converter.py:199-258 | definition of one iteration numbered `n`; its meaning is given by `Conversion.ProcessFate` and `Conversion.ProcessShape`, and `Conversion.ConvertOne` computes it step by step |
| Conversion.Place | src/sticker_to_emoji/converter.py:217-237 | definition of naming a draft as emoji number `n`, with the `.webm` name that `with_suffix` gives a rendered clip at line 231; its meaning is given by `Conversion.ProcessShape` and `Conversion.PngToWebm` |
| Conversion.PrepareFate | src/sticker_to_emoji/converter.py:222-264 | the draft of a sticker stands for the fate `FateOf` assigns it |
| Conversion.ProcessShape | src/sticker_to_emoji/converter.py:199-259 | a record carries the sticker's glyph and the file name of its number; the tag is `video` exactly for a video sticker or a TGS sticker whose WEBM render succeeded; a `video` file is never a PNG and a `static` one always is; a rendered file keeps to the duration and canvas limits (a copied video is admitted as downloaded) |
| Conversion.FateCases | src/sticker_to_emoji/converter.py:241-264 | a sticker is skipped exactly when it is a non-video TGS sticker whose download worked and whose two renders failed; it is dropped uncounted exactly when its download raised or its static decode failed |
| Conversion.TallyTotal | src/sticker_to_emoji/converter.py:222-264 | every examined sticker has exactly one fate |
| Conversion.Run | src/sticker_to_emoji/converter.py:192-264 | reference definition of the loop from a given state; its meaning is given by `Conversion.RunConsistent` and `Conversion.RunProgress` |
| Conversion.Convert | src/sticker_to_emoji/converter.py:179-270 | reference definition of the whole loop; its meaning is given by `Conversion.ConvertFacts`, `Conversion.ConvertLimit`, `Conversion.ConvertOrder` and `Conversion.ConvertTally`, and `Conversion.ConvertStickers` computes it |
| Conversion.Advance | src/sticker_to_emoji/converter.py:243-259 | definition of the bookkeeping after one sticker (`skipped += 1` at line 243, the append at line 259); its meaning is given by `Conversion.StepConsistent`, `Conversion.RunConsistent` and `Conversion.ConvertTally` |
| Conversion.RunConsistent | src/sticker_to_emoji/converter.py:192-264 | running the loop keeps the state consistent: sources increasing, each record being its source processed under its number, and the records and skips counting the examined stickers by fate |
| Conversion.RunProgress | src/sticker_to_emoji/converter.py:192-195 | the loop stops only at the end of the stickers or at the limit, takes up each sticker while below the limit, and never passes the limit |
| Conversion.ConvertFacts | src/sticker_to_emoji/converter.py:179-270 | the whole loop's result, stated in terms of each sticker's fate |
| Conversion.ConvertLimit | src/sticker_to_emoji/converter.py:192-195 | with a limit of 0 or more, at most `limit` records are returned; with a limit of 0 or less, nothing is converted or downloaded |
| Conversion.ConvertEarlyBreak | src/sticker_to_emoji/converter.py:192-223 | a sticker is downloaded only while fewer than `limit` earlier stickers converted, and stickers are left untouched only once `limit` records exist |
| Conversion.ConvertOrder | src/sticker_to_emoji/converter.py:259 | records appear in input order, each from an examined sticker, and every examined sticker that converts has its record |
| Conversion.ConvertProcess | src/sticker_to_emoji/converter.py:197-259 | record `k` and its file are what processing its source sticker as emoji number `k + 1` yields |
| Conversion.ConvertRecords | src/sticker_to_emoji/converter.py:199-259 | record `k` has its source's glyph, is numbered `k + 1`, has the tag the classifier and WEBM render decide, and its file, if rendered, keeps to the duration and canvas limits (a copied video is admitted as downloaded) |
| Conversion.ConvertNames | src/sticker_to_emoji/converter.py:217 | record `k` is named `emoji_{k+1:03d}_{glyph}` with the extension of its tag |
| Conversion.NumberedDistinct | src/sticker_to_emoji/converter.py:217 | consecutively numbered records have pairwise different file names |
| Conversion.ConvertPathsDistinct | src/sticker_to_emoji/converter.py:217-218 | no two records share a path, so no converted file overwrites another |
| Conversion.ConvertTally | src/sticker_to_emoji/converter.py:241-264 | the records count the converted stickers and the skip tally the double TGS failures; records, skips and dropped stickers add up to the examined stickers, which never exceed the input |
| Conversion.ConvertAllSucceed | src/sticker_to_emoji/converter.py:192-195 | when every sticker converts, exactly `min(limit, n)` stickers are downloaded and converted |
| Conversion.PickGlyph | src/sticker_to_emoji/converter.py:199-203 | the glyph loop returns a non-empty glyph: the first sticker attribute's `alt`, or the default |
| Conversion.ConvertOne | src/sticker_to_emoji/converter.py:197-264 | one `try` block, written step by step as the source does, yields `Process` of the sticker |
| Conversion.ConvertStickers | src/sticker_to_emoji/converter.py:179-270 | the loop returns the pack title, and its records and skip tally are those of `Convert` |
| Publish.FetchName | src/sticker_to_emoji/converter.py:164-166 | the looked-up name never contains `/` |
| Publish.FetchNameAddEmoji | src/sticker_to_emoji/converter.py:164-166 | `addemoji?set=x`, bare or after a `/`, yields the text of `x` after its last `=`, which is `x` itself when `x` has no `=` (for `x` without `/`) |
| Publish.FetchNameLastSegment | src/sticker_to_emoji/converter.py:164 | any other link yields its last path segment |
| Publish.FetchNameIdempotent | src/sticker_to_emoji/converter.py:164-166 | normalising a name twice gives the same as normalising it once |
| Publish.UploadName | src/sticker_to_emoji/converter.py:296-297 | the upload name starts with the given name, ends with `_by_<bot>`, and is the given name when it already ends so |
| Publish.UploadNameIdempotent | src/sticker_to_emoji/converter.py:296-297 | fixing the name twice gives the same as fixing it once |
| Publish.ContentType | src/sticker_to_emoji/converter.py:317-320 | definition of the content type chosen from the tag; its meaning is given by `Publish.ExtensionTellsContentType` |
| Publish.ExtensionTellsContentType | src/sticker_to_emoji/converter.py:317-320 | the content type is `video/webm` exactly for a name ending in `.webm`, and `image/png` exactly for one ending in `.png` |
| Publish.ContentTypeMatchesName | src/sticker_to_emoji/converter.py:317-323 | a file named as an emoji is announced with the content type its extension names |
| Publish.ContentTypeMatchesFile | src/sticker_to_emoji/converter.py:317-323 | every converted record is uploaded with the content type of the file actually written |
| Publish.Accepted | src/sticker_to_emoji/converter.py:304-344 | the collected entries are empty exactly when no upload was accepted; each entry comes from an accepted upload with its glyph and tag, and every accepted upload contributes its entry |
| Publish.Entry | src/sticker_to_emoji/converter.py:334-338 | definition of one `stickers` entry (file id, `[emoji]`, format); its meaning is given by `Publish.Accepted` and `Publish.AcceptedCount` |
| Publish.AcceptedCount | src/sticker_to_emoji/converter.py:328-338 | one entry per accepted upload: the entries number the accepted uploads |
| Publish.AcceptedConcat | src/sticker_to_emoji/converter.py:304-338 | entries keep the order of the uploads: the entries of earlier uploads come before those of later ones |
| Publish.UploadAll | src/sticker_to_emoji/converter.py:304-344 | the upload loop collects exactly `Accepted` of the replies |
| Publish.CreateEmojiPack | src/sticker_to_emoji/converter.py:346-368 | with no accepted upload it fails with "no stickers uploaded" and sends nothing; otherwise it sends the fixed name, the title and the accepted entries, and returns `https://t.me/addemoji/<name>` unless the create call fails |

## Left out

- Network and platform calls are not modelled as operations. This covers the Telegram client, the sticker-set request, `download_media`, `getMe` and its `bot_username` cache, `uploadStickerFile` and `createNewStickerSet`. Each is an outcome carried on the sticker or a reply passed in as a parameter. A failing `getMe` is not modelled; the bot's user name is a parameter.
- Image decoding, RGBA conversion and LANCZOS resampling are outside the model. Decoding yields `Undecodable` or the thumbnail's size. PIL's guarantee that a thumbnail is 1 to 100 pixels per side is the type `Side`.
- Lottie rendering, gzip and UTF-8 decoding, and the encoder subprocess are outside the model. They are the `TgsPayload` oracles: parsing, frame count, frame rate, failing frames, and encoder success. The encoder's flags and its `-fs 64000` byte cap are not modelled, so no bound on file size is stated.
- Animation.WebmOutcome: the encoder is taken to fail when it is given no frames. The source has no such test and relies on the encoder's exit status.
- Conversion.WithinLimits: a copied `video/webm` sticker is written as downloaded (lines 225-228); the source checks neither its duration nor its dimensions nor its size, and the model knows none of them, so the platform limits are proved for rendered files only.
- Frame rates are reals, without IEEE rounding or NaN.
- File writes, the temporary frame directory and its cleanup, and write failures are not modelled. Paths are file names inside the output directory, which is left out. A glyph that contains `/` is treated as part of the file name.
- The progress and summary printing is left out. The skip tally is returned rather than printed.
- `main` is left out: argument parsing, environment variables, the fallback pack name from the title, the `--save-local` copy and the exit codes.
