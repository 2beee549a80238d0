/** `download_and_convert_stickers`: the loop that walks a sticker set in
    order, stops once `limit` emojis are converted, and turns each sticker
    into an emoji file by one of three paths (video copied as it is, TGS
    rendered to WEBM or else to a first-frame PNG, anything else decoded and
    centred on a 100x100 PNG canvas).

    `Process` is one iteration, `Run`/`Convert` the whole loop as a
    reference definition, and `ConvertStickers` the loop itself, proved to
    compute `Convert`. The lemmas state what the loop promises. */
module Conversion {
  import opened Wrappers
  import opened Text
  import opened Stickers
  import opened Canvas
  import opened Animation

  /** The `sticker_format` tag of a converted emoji. */
  datatype Format = Video | Static

  /** The tag as the upload form spells it. */
  function FormatName(f: Format): string {
    match f
    case Video => "video"
    case Static => "static"
  }

  /** The file extension that goes with a tag. */
  function Extension(f: Format): string {
    match f
    case Video => ".webm"
    case Static => ".png"
  }

  /** A converted emoji: `(filepath, emoji, sticker_format)`. Paths are
      file names inside the output directory. */
  datatype Record = Record(path: string, glyph: string, format: Format)

  /** What was written at a record's path: the downloaded bytes unchanged,
      an encoded clip, or a PNG canvas with one pasted layer. */
  datatype Artifact = Verbatim | Webm(clip: Clip) | Png(layer: Layer)

  /** The platform's limits on an emoji file, as far as the files the
      converter renders go: a clip lasts at most three seconds and has a
      frame; a picture is a 100x100 canvas holding the whole image. A copied
      video sticker is written as downloaded, without any check of its
      duration, size or dimensions, and the model knows none of them: it is
      admitted here as it is, so the limits are proved for rendered files
      only. */
  predicate WithinLimits(a: Artifact) {
    match a
    case Verbatim => true
    case Webm(clip) => clip.duration <= MaxDuration && 0 < |clip.frames|
    case Png(layer) => layer.canvas == EmojiSize && Inside(layer)
  }

  /** The outcome of one iteration: a record, the `skipped += 1; continue`
      of a double TGS failure, or an exception caught and dropped. */
  datatype Outcome = Converted(record: Record, file: Artifact) | Skipped | Failed

  /** What becomes of a sticker, independent of its position. */
  datatype Fate = Done | Skip | Drop

  /** `f"emoji_{n:03d}_{emoji}{file_ext}"` */
  function FileName(n: nat, glyph: string, ext: string): string {
    "emoji_" + (ZeroPadded(n, 3) + ("_" + (glyph + ext)))
  }

  /** `f"emoji_{n:03d}_{emoji}"`, the part of the file name before the
      extension. */
  function Stem(n: nat, glyph: string): (r: string)
    ensures 6 <= |r|
  {
    "emoji_" + (ZeroPadded(n, 3) + ("_" + glyph))
  }

  /** The file name is the stem followed by the extension. */
  lemma FileNameStem(n: nat, glyph: string, ext: string)
    ensures FileName(n, glyph, ext) == Stem(n, glyph) + ext
  {
  }

  /** `Path.with_suffix`: the text from the last dot on (when that dot is
      neither the first nor the last character) is replaced by `suffix`. */
  function WithSuffix(name: string, suffix: string): string {
    var ext := AfterLast(name, '.');
    var dot := |name| - |ext| - 1;
    if ext != name && 0 < dot && ext != "" then name[..dot] + suffix else name + suffix
  }

  /** `with_suffix` replaces a final extension that follows a non-empty
      stem. */
  lemma WithSuffixReplaces(stem: string, ext: string, suffix: string)
    requires stem != [] && ext != [] && '.' !in ext
    ensures WithSuffix(stem + ['.'] + ext, suffix) == stem + suffix
  {
    AfterLastAppend(stem, '.', ext);
    assert (stem + ['.'] + ext)[..|stem|] == stem;
  }

  /** Renaming a `.png` emoji file to `.webm` keeps its number and glyph. */
  lemma PngToWebm(n: nat, glyph: string)
    ensures WithSuffix(FileName(n, glyph, ".png"), ".webm") == FileName(n, glyph, ".webm")
  {
    var stem := Stem(n, glyph);
    FileNameStem(n, glyph, ".png");
    FileNameStem(n, glyph, ".webm");
    assert stem + ".png" == stem + ['.'] + "png";
    WithSuffixReplaces(stem, "png", ".webm");
  }

  /** An emoji file name determines its number. */
  lemma FileNameNumber(m: nat, g: string, e: string, n: nat, h: string, f: string)
    ensures FileName(m, g, e) == FileName(n, h, f) ==> m == n
  {
    if FileName(m, g, e) == FileName(n, h, f) {
      var p, q := ZeroPadded(m, 3), ZeroPadded(n, 3);
      var a, b := g + e, h + f;
      assert p + (['_'] + a) == FileName(m, g, e)[6..];
      assert q + (['_'] + b) == FileName(n, h, f)[6..];
      DigitsBeforeSeparator(p, q, '_', a, b);
    }
  }

  /** Which path a sticker takes and whether it ends in a record, a skip or
      a dropped exception. */
  function FateOf(s: Sticker, encoderPresent: bool): Fate {
    if !s.downloadOk then Drop
    else match Classify(s)
      case NativeVideo => Done
      case VectorAnimation =>
        if WebmOutcome(s.tgs, encoderPresent).Some? || FirstFramePng(s.tgs).Some? then Done else Skip
      case StaticRaster => if s.image.Undecodable? then Drop else Done
  }

  /** What one iteration makes of a sticker before the file is named: the
      glyph, the tag and the file written, or a skip, or a dropped
      exception. */
  datatype Draft = Made(glyph: string, format: Format, file: Artifact) | Unrendered | Dropped

  /** The fate a draft stands for. */
  function DraftFate(d: Draft): Fate {
    match d
    case Made(_, _, _) => Done
    case Unrendered => Skip
    case Dropped => Drop
  }

  /** The body of the loop's `try` block, apart from the file name: a video
      is copied as it is; a TGS sticker becomes a WEBM clip, or else a PNG
      of its first frame, or else is skipped; anything else is decoded,
      thumbnailed and centred on a PNG canvas. A failed download or decode
      drops the sticker. */
  function Prepare(s: Sticker, encoderPresent: bool): Draft {
    var glyph := Glyph(s);
    if !s.downloadOk then Dropped
    else match Classify(s)
      case NativeVideo => Made(glyph, Video, Verbatim)
      case VectorAnimation =>
        (match WebmOutcome(s.tgs, encoderPresent)
         case Some(clip) => Made(glyph, Video, Webm(clip))
         case None =>
           match FirstFramePng(s.tgs)
           case Some(layer) => Made(glyph, Static, Png(layer))
           case None => Unrendered)
      case StaticRaster =>
        match s.image
        case Undecodable => Dropped
        case Thumbnail(w, h) => Made(glyph, Static, Png(StaticLayer(w, h)))
  }

  /** The rule that names the file of emoji number `n` from its glyph and
      extension. The loop is defined and proved for any such rule, and run
      with `FileName`. */
  type NameRule = (nat, string, string) -> string

  /** Naming the file of a draft that becomes emoji number `n`. A TGS clip
      is first named `.png` and then renamed with `with_suffix('.webm')`;
      `PngToWebm` shows that this is the `.webm` name used here. */
  function Place(d: Draft, n: nat, nameOf: NameRule): Outcome {
    match d
    case Made(glyph, format, file) =>
      Converted(Record(nameOf(n, glyph, Extension(format)), glyph, format), file)
    case Unrendered => Skipped
    case Dropped => Failed
  }

  /** One iteration of the loop for a sticker that becomes emoji number `n`
      if it converts. */
  function Process(s: Sticker, n: nat, encoderPresent: bool): Outcome {
    Place(Prepare(s, encoderPresent), n, FileName)
  }

  lemma PrepareFate(s: Sticker, encoderPresent: bool)
    ensures DraftFate(Prepare(s, encoderPresent)) == FateOf(s, encoderPresent)
  {
  }

  /** Whether an iteration yields a record, a skip or a dropped exception
      depends on the sticker alone, not on its number. */
  lemma ProcessFate(s: Sticker, n: nat, encoderPresent: bool)
    ensures var o := Process(s, n, encoderPresent);
      && (o.Converted? <==> FateOf(s, encoderPresent) == Done)
      && (o.Skipped? <==> FateOf(s, encoderPresent) == Skip)
      && (o.Failed? <==> FateOf(s, encoderPresent) == Drop)
  {
  }

  /** The record's file name is emoji number `n` with its glyph and the
      extension of its tag. */
  predicate NamedAs(rec: Record, n: nat) {
    rec.path == FileName(n, rec.glyph, Extension(rec.format))
  }

  /** Records with different numbers have different file names. */
  lemma NamesDistinct(a: Record, m: nat, b: Record, n: nat)
    requires m != n
    ensures NamedAs(a, m) && NamedAs(b, n) ==> a.path != b.path
  {
    if NamedAs(a, m) && NamedAs(b, n) && a.path == b.path {
      FileNameNumber(m, a.glyph, Extension(a.format), n, b.glyph, Extension(b.format));
    }
  }

  /** A record made from sticker `s` as emoji number `n`: it carries the
      sticker's glyph and a file name numbered `n` with the extension of its
      tag; the tag is `video` exactly for a video sticker or a TGS sticker
      whose WEBM render succeeded; a `video` record's file is the copied
      video or a clip and a `static` one's is a PNG; a rendered file keeps
      to the platform's limits (`WithinLimits`). */
  ghost predicate RecordShape(s: Sticker, n: nat, encoderPresent: bool, rec: Record, file: Artifact) {
    && rec.glyph == Glyph(s)
    && NamedAs(rec, n)
    && (rec.format == Video <==>
          IsVideo(s) || (Classify(s) == VectorAnimation && WebmOutcome(s.tgs, encoderPresent).Some?))
    && (rec.format == Video <==> !file.Png?)
    && WithinLimits(file)
  }

  lemma ProcessShape(s: Sticker, n: nat, encoderPresent: bool)
    requires Process(s, n, encoderPresent).Converted?
    ensures var o := Process(s, n, encoderPresent);
      RecordShape(s, n, encoderPresent, o.record, o.file)
  {
  }

  /** The loop's state: the records so far, the file written for each, the
      index of the sticker each came from, the skip tally, and how many
      stickers the loop has taken up (downloaded). */
  datatype Batch = Batch(converted: seq<Record>, files: seq<Artifact>, sources: seq<nat>, skipped: nat, examined: nat)

  const Start := Batch([], [], [], 0, 0)

  /** The bookkeeping after one iteration with outcome `o`: append the
      record, or count the skip, or do nothing; the sticker is taken up
      either way. */
  function Advance(b: Batch, o: Outcome): Batch {
    match o
    case Converted(r, f) =>
      Batch(b.converted + [r], b.files + [f], b.sources + [b.examined], b.skipped, b.examined + 1)
    case Skipped => b.(skipped := b.skipped + 1, examined := b.examined + 1)
    case Failed => b.(examined := b.examined + 1)
  }

  /** The drafts of a whole sticker set, in order. */
  function Drafts(stickers: seq<Sticker>, encoderPresent: bool): (r: seq<Draft>)
    ensures |r| == |stickers|
    ensures forall i :: 0 <= i < |stickers| ==> r[i] == Prepare(stickers[i], encoderPresent)
  {
    seq(|stickers|, i requires 0 <= i < |stickers| => Prepare(stickers[i], encoderPresent))
  }

  /** One pass of the loop body on the next sticker, whose draft is
      `drafts[b.examined]`. */
  function Step(drafts: seq<Draft>, nameOf: NameRule, b: Batch): Batch
    requires b.examined < |drafts|
  {
    Advance(b, Place(drafts[b.examined], |b.converted| + 1, nameOf))
  }

  /** The loop from state `b` on: it stops when the stickers run out or when
      `limit` records exist, before taking up another sticker. */
  function Run(drafts: seq<Draft>, limit: int, nameOf: NameRule, b: Batch): Batch
    requires b.examined <= |drafts|
    decreases |drafts| - b.examined
  {
    if b.examined == |drafts| || |b.converted| >= limit then b
    else Run(drafts, limit, nameOf, Step(drafts, nameOf, b))
  }

  /** Below the limit and before the end, the loop runs one more pass. */
  lemma RunStep(drafts: seq<Draft>, limit: int, nameOf: NameRule, b: Batch)
    requires b.examined < |drafts| && |b.converted| < limit
    ensures Run(drafts, limit, nameOf, b) == Run(drafts, limit, nameOf, Step(drafts, nameOf, b))
  {
  }

  /** The whole loop over a sticker set, from no records and no skips. */
  function Convert(stickers: seq<Sticker>, limit: int, encoderPresent: bool): Batch {
    Run(Drafts(stickers, encoderPresent), limit, FileName, Start)
  }

  /** How many of the first `e` stickers meet fate `f`. */
  function Tally(stickers: seq<Sticker>, encoderPresent: bool, e: nat, f: Fate): nat
    requires e <= |stickers|
  {
    if e == 0 then 0
    else Tally(stickers, encoderPresent, e - 1, f) + (if FateOf(stickers[e - 1], encoderPresent) == f then 1 else 0)
  }

  /** Every examined sticker has exactly one fate. */
  lemma {:induction false} TallyTotal(stickers: seq<Sticker>, encoderPresent: bool, e: nat)
    requires e <= |stickers|
    ensures Tally(stickers, encoderPresent, e, Done) + Tally(stickers, encoderPresent, e, Skip)
          + Tally(stickers, encoderPresent, e, Drop) == e
  {
    if e > 0 {
      TallyTotal(stickers, encoderPresent, e - 1);
    }
  }

  /** How many of the first `e` drafts stand for fate `f`. */
  function DraftTally(drafts: seq<Draft>, e: nat, f: Fate): nat
    requires e <= |drafts|
  {
    if e == 0 then 0
    else DraftTally(drafts, e - 1, f) + (if DraftFate(drafts[e - 1]) == f then 1 else 0)
  }

  lemma {:induction false} TallyDrafts(stickers: seq<Sticker>, encoderPresent: bool, e: nat, f: Fate)
    requires e <= |stickers|
    ensures DraftTally(Drafts(stickers, encoderPresent), e, f) == Tally(stickers, encoderPresent, e, f)
  {
    if e > 0 {
      TallyDrafts(stickers, encoderPresent, e - 1, f);
      PrepareFate(stickers[e - 1], encoderPresent);
    }
  }

  /** The shape of the loop state: one file and one source per record, and
      the sources are increasing indices of examined stickers. */
  ghost predicate WellShaped(b: Batch, count: nat) {
    && b.examined <= count
    && |b.files| == |b.converted| == |b.sources|
    && (forall k :: 0 <= k < |b.sources| ==> b.sources[k] < b.examined)
    && (forall k, l :: 0 <= k < l < |b.sources| ==> b.sources[k] < b.sources[l])
  }

  /** Record `k` and its file are what naming its source's draft as emoji
      number `k + 1` yields. */
  ghost predicate RecordsFrom(drafts: seq<Draft>, nameOf: NameRule, b: Batch)
    requires WellShaped(b, |drafts|)
  {
    forall k :: 0 <= k < |b.sources| ==>
      Place(drafts[b.sources[k]], k + 1, nameOf) == Converted(b.converted[k], b.files[k])
  }

  /** Every examined draft that converts is a source, and the records and
      the skip tally count the examined drafts by fate. */
  ghost predicate Counted(drafts: seq<Draft>, b: Batch)
    requires WellShaped(b, |drafts|)
  {
    && (forall j :: 0 <= j < b.examined && DraftFate(drafts[j]) == Done ==> j in b.sources)
    && |b.converted| == DraftTally(drafts, b.examined, Done)
    && b.skipped == DraftTally(drafts, b.examined, Skip)
  }

  /** The loop state describes the first `examined` drafts. */
  ghost predicate Consistent(drafts: seq<Draft>, nameOf: NameRule, b: Batch) {
    WellShaped(b, |drafts|) && RecordsFrom(drafts, nameOf, b) && Counted(drafts, b)
  }

  lemma AdvanceShaped(b: Batch, o: Outcome, count: nat)
    requires WellShaped(b, count) && b.examined < count
    ensures WellShaped(Advance(b, o), count)
    ensures Advance(b, o).examined == b.examined + 1
    ensures |Advance(b, o).converted| == |b.converted| + (if o.Converted? then 1 else 0)
  {
  }

  lemma StepRecords(drafts: seq<Draft>, nameOf: NameRule, b: Batch)
    requires WellShaped(b, |drafts|) && b.examined < |drafts| && RecordsFrom(drafts, nameOf, b)
    ensures WellShaped(Step(drafts, nameOf, b), |drafts|)
    ensures RecordsFrom(drafts, nameOf, Step(drafts, nameOf, b))
  {
    var o := Place(drafts[b.examined], |b.converted| + 1, nameOf);
    var b' := Advance(b, o);
    AdvanceShaped(b, o, |drafts|);
    if o.Converted? {
      forall k | 0 <= k < |b'.sources|
        ensures Place(drafts[b'.sources[k]], k + 1, nameOf) == Converted(b'.converted[k], b'.files[k])
      {
        if k < |b.sources| {
          assert b'.sources[k] == b.sources[k] && b'.converted[k] == b.converted[k] && b'.files[k] == b.files[k];
        }
      }
    }
  }

  lemma StepCounted(drafts: seq<Draft>, nameOf: NameRule, b: Batch)
    requires WellShaped(b, |drafts|) && b.examined < |drafts| && Counted(drafts, b)
    ensures WellShaped(Step(drafts, nameOf, b), |drafts|)
    ensures Counted(drafts, Step(drafts, nameOf, b))
  {
    AdvanceShaped(b, Place(drafts[b.examined], |b.converted| + 1, nameOf), |drafts|);
  }

  lemma StepConsistent(drafts: seq<Draft>, nameOf: NameRule, b: Batch)
    requires Consistent(drafts, nameOf, b) && b.examined < |drafts|
    ensures Consistent(drafts, nameOf, Step(drafts, nameOf, b))
    ensures Step(drafts, nameOf, b).examined == b.examined + 1
    ensures |b.converted| <= |Step(drafts, nameOf, b).converted| <= |b.converted| + 1
  {
    StepRecords(drafts, nameOf, b);
    StepCounted(drafts, nameOf, b);
    AdvanceShaped(b, Place(drafts[b.examined], |b.converted| + 1, nameOf), |drafts|);
  }

  /** Running the loop from a consistent state ends in a consistent state. */
  lemma {:induction false} RunConsistent(drafts: seq<Draft>, limit: int, nameOf: NameRule, b: Batch)
    requires Consistent(drafts, nameOf, b)
    ensures Consistent(drafts, nameOf, Run(drafts, limit, nameOf, b))
    decreases |drafts| - b.examined
  {
    if b.examined < |drafts| && |b.converted| < limit {
      StepConsistent(drafts, nameOf, b);
      RunConsistent(drafts, limit, nameOf, Step(drafts, nameOf, b));
      RunStep(drafts, limit, nameOf, b);
    }
  }

  /** One pass keeps the record count equal to the number of converting
      drafts taken up. */
  lemma StepTally(drafts: seq<Draft>, nameOf: NameRule, b: Batch)
    requires b.examined < |drafts| && |b.converted| == DraftTally(drafts, b.examined, Done)
    ensures Step(drafts, nameOf, b).examined == b.examined + 1
    ensures |Step(drafts, nameOf, b).converted| == DraftTally(drafts, b.examined + 1, Done)
  {
  }

  /** Where the loop stops: at the end of the stickers or at the limit;
      every sticker it takes up is taken up below the limit, and it never
      goes past the limit. */
  lemma {:induction false} RunProgress(drafts: seq<Draft>, limit: int, nameOf: NameRule, b: Batch)
    requires b.examined <= |drafts| && |b.converted| == DraftTally(drafts, b.examined, Done)
    ensures var r := Run(drafts, limit, nameOf, b);
      && b.examined <= r.examined <= |drafts|
      && (r.examined == |drafts| || |r.converted| >= limit)
      && (forall j :: b.examined <= j < r.examined ==> DraftTally(drafts, j, Done) < limit)
      && (|r.converted| <= |b.converted| || |r.converted| <= limit)
    decreases |drafts| - b.examined
  {
    if b.examined < |drafts| && |b.converted| < limit {
      StepTally(drafts, nameOf, b);
      RunProgress(drafts, limit, nameOf, Step(drafts, nameOf, b));
      RunStep(drafts, limit, nameOf, b);
    }
  }

  /** What the whole loop guarantees, in terms of the stickers' fates. */
  lemma ConvertFacts(stickers: seq<Sticker>, limit: int, encoderPresent: bool)
    ensures var r := Convert(stickers, limit, encoderPresent);
      && WellShaped(r, |stickers|)
      && (forall j :: 0 <= j < r.examined && FateOf(stickers[j], encoderPresent) == Done ==> j in r.sources)
      && |r.converted| == Tally(stickers, encoderPresent, r.examined, Done)
      && r.skipped == Tally(stickers, encoderPresent, r.examined, Skip)
      && (r.examined == |stickers| || |r.converted| >= limit)
      && (forall j :: 0 <= j < r.examined ==> Tally(stickers, encoderPresent, j, Done) < limit)
      && (|r.converted| == 0 || |r.converted| <= limit)
  {
    var drafts := Drafts(stickers, encoderPresent);
    RunConsistent(drafts, limit, FileName, Start);
    RunProgress(drafts, limit, FileName, Start);
    var r := Run(drafts, limit, FileName, Start);
    TallyDrafts(stickers, encoderPresent, r.examined, Done);
    TallyDrafts(stickers, encoderPresent, r.examined, Skip);
    forall j | 0 <= j < r.examined
      ensures Tally(stickers, encoderPresent, j, Done) < limit
      ensures FateOf(stickers[j], encoderPresent) == Done ==> j in r.sources
    {
      TallyDrafts(stickers, encoderPresent, j, Done);
      PrepareFate(stickers[j], encoderPresent);
    }
  }

  /** The limit is never exceeded; a limit of zero or less converts nothing
      and downloads nothing. */
  lemma ConvertLimit(stickers: seq<Sticker>, limit: int, encoderPresent: bool)
    ensures var r := Convert(stickers, limit, encoderPresent);
      && (0 <= limit ==> |r.converted| <= limit)
      && (limit <= 0 ==> r.converted == [] && r.examined == 0)
  {
    ConvertFacts(stickers, limit, encoderPresent);
  }

  /** Early break: the loop takes up (downloads) sticker `j` only while fewer
      than `limit` of the stickers before it converted, and it leaves
      stickers untouched only once `limit` records exist. */
  lemma ConvertEarlyBreak(stickers: seq<Sticker>, limit: int, encoderPresent: bool)
    ensures var r := Convert(stickers, limit, encoderPresent);
      && r.examined <= |stickers|
      && (forall j :: 0 <= j < r.examined ==> Tally(stickers, encoderPresent, j, Done) < limit)
      && (r.examined < |stickers| ==> Tally(stickers, encoderPresent, r.examined, Done) >= limit)
  {
    ConvertFacts(stickers, limit, encoderPresent);
  }

  /** The records are the converted stickers in input order: record `k`
      comes from sticker `sources[k]`, the sources increase, and every
      examined sticker that converts is among them. */
  lemma ConvertOrder(stickers: seq<Sticker>, limit: int, encoderPresent: bool)
    ensures var r := Convert(stickers, limit, encoderPresent);
      && r.examined <= |stickers|
      && |r.converted| == |r.sources| == |r.files|
      && (forall k, l :: 0 <= k < l < |r.sources| ==> r.sources[k] < r.sources[l])
      && (forall k :: 0 <= k < |r.sources| ==> r.sources[k] < r.examined)
      && (forall j :: 0 <= j < r.examined && FateOf(stickers[j], encoderPresent) == Done ==> j in r.sources)
  {
    ConvertFacts(stickers, limit, encoderPresent);
  }

  /** Record `k` and its file are what processing sticker `sources[k]` as
      emoji number `k + 1` yields. */
  lemma ConvertProcess(stickers: seq<Sticker>, limit: int, encoderPresent: bool)
    ensures var r := Convert(stickers, limit, encoderPresent);
      && |r.converted| == |r.sources| == |r.files|
      && (forall k :: 0 <= k < |r.sources| ==> r.sources[k] < |stickers|)
      && (forall k :: 0 <= k < |r.converted| ==>
            Process(stickers[r.sources[k]], k + 1, encoderPresent) == Converted(r.converted[k], r.files[k]))
  {
    RunConsistent(Drafts(stickers, encoderPresent), limit, FileName, Start);
  }

  /** Record `k` is shaped by its source sticker and by its number `k + 1`
      (see `RecordShape`). */
  lemma ConvertRecords(stickers: seq<Sticker>, limit: int, encoderPresent: bool)
    ensures var r := Convert(stickers, limit, encoderPresent);
      && |r.converted| == |r.sources| == |r.files|
      && (forall k :: 0 <= k < |r.sources| ==> r.sources[k] < |stickers|)
      && (forall k :: 0 <= k < |r.converted| ==>
            RecordShape(stickers[r.sources[k]], k + 1, encoderPresent, r.converted[k], r.files[k]))
  {
    ConvertProcess(stickers, limit, encoderPresent);
    var r := Convert(stickers, limit, encoderPresent);
    forall k | 0 <= k < |r.converted|
      ensures RecordShape(stickers[r.sources[k]], k + 1, encoderPresent, r.converted[k], r.files[k])
    {
      ProcessShape(stickers[r.sources[k]], k + 1, encoderPresent);
    }
  }

  /** Record `k` is named as emoji number `k + 1`. */
  lemma ConvertNames(stickers: seq<Sticker>, limit: int, encoderPresent: bool)
    ensures var r := Convert(stickers, limit, encoderPresent);
      forall k :: 0 <= k < |r.converted| ==> NamedAs(r.converted[k], k + 1)
  {
    ConvertRecords(stickers, limit, encoderPresent);
  }

  /** Records numbered 1, 2, ... in order have pairwise different file
      names. */
  lemma NumberedDistinct(records: seq<Record>)
    requires forall k :: 0 <= k < |records| ==> NamedAs(records[k], k + 1)
    ensures forall k, l :: 0 <= k < l < |records| ==> records[k].path != records[l].path
  {
    forall k, l | 0 <= k < l < |records|
      ensures records[k].path != records[l].path
    {
      NamesDistinct(records[k], k + 1, records[l], l + 1);
    }
  }

  /** No two records share a file name, so no converted file overwrites
      another. */
  lemma ConvertPathsDistinct(stickers: seq<Sticker>, limit: int, encoderPresent: bool)
    ensures var r := Convert(stickers, limit, encoderPresent);
      forall k, l :: 0 <= k < l < |r.converted| ==> r.converted[k].path != r.converted[l].path
  {
    ConvertNames(stickers, limit, encoderPresent);
    NumberedDistinct(Convert(stickers, limit, encoderPresent).converted);
  }

  /** The skip tally counts the examined stickers whose TGS renders both
      failed, and nothing else; records, skips and dropped exceptions
      together account for every examined sticker. */
  lemma ConvertTally(stickers: seq<Sticker>, limit: int, encoderPresent: bool)
    ensures var r := Convert(stickers, limit, encoderPresent);
      && r.examined <= |stickers|
      && |r.converted| == Tally(stickers, encoderPresent, r.examined, Done)
      && r.skipped == Tally(stickers, encoderPresent, r.examined, Skip)
      && |r.converted| + r.skipped + Tally(stickers, encoderPresent, r.examined, Drop) == r.examined
      && |r.converted| + r.skipped <= r.examined <= |stickers|
  {
    ConvertFacts(stickers, limit, encoderPresent);
    TallyTotal(stickers, encoderPresent, Convert(stickers, limit, encoderPresent).examined);
  }

  /** A sticker is skipped exactly when it is a TGS sticker (and not a video
      one) whose download worked and whose WEBM and first-frame renders both
      failed; it is dropped uncounted exactly when its download raised or it
      took the static path and did not decode. */
  lemma FateCases(s: Sticker, encoderPresent: bool)
    ensures FateOf(s, encoderPresent) == Skip <==>
      s.downloadOk && !IsVideo(s) && IsAnimated(s) &&
      WebmOutcome(s.tgs, encoderPresent).None? && FirstFramePng(s.tgs).None?
    ensures FateOf(s, encoderPresent) == Drop <==>
      !s.downloadOk || (!IsVideo(s) && !IsAnimated(s) && s.image.Undecodable?)
  {
  }

  lemma {:induction false} TallyAllDone(stickers: seq<Sticker>, encoderPresent: bool, e: nat)
    requires e <= |stickers|
    requires forall j :: 0 <= j < |stickers| ==> FateOf(stickers[j], encoderPresent) == Done
    ensures Tally(stickers, encoderPresent, e, Done) == e
  {
    if e > 0 {
      TallyAllDone(stickers, encoderPresent, e - 1);
    }
  }

  /** When every sticker converts, the loop converts `min(limit, n)` of the
      `n` stickers and downloads no sticker after the last one it needs. */
  lemma ConvertAllSucceed(stickers: seq<Sticker>, limit: int, encoderPresent: bool)
    requires 0 <= limit
    requires forall j :: 0 <= j < |stickers| ==> FateOf(stickers[j], encoderPresent) == Done
    ensures var r := Convert(stickers, limit, encoderPresent);
      && |r.converted| == r.examined
      && (limit <= |stickers| ==> r.examined == limit)
      && (|stickers| <= limit ==> r.examined == |stickers|)
  {
    ConvertFacts(stickers, limit, encoderPresent);
    TallyAllDone(stickers, encoderPresent, Convert(stickers, limit, encoderPresent).examined);
  }

  /** The glyph loop of one iteration: the first sticker attribute decides,
      with the default glyph when its `alt` is empty or when there is none. */
  method PickGlyph(attributes: seq<Attribute>) returns (emoji: string)
    ensures emoji == GlyphOf(attributes)
    ensures emoji != ""
    ensures (forall i :: 0 <= i < |attributes| ==> !attributes[i].StickerAttribute?) ==> emoji == DefaultGlyph
    ensures forall i :: FirstStickerAttribute(attributes, i) ==>
      emoji == (if attributes[i].alt == "" then DefaultGlyph else attributes[i].alt)
  {
    GlyphSpec(attributes);
    emoji := DefaultGlyph;
    var i := 0;
    while i < |attributes|
      invariant i <= |attributes|
      invariant GlyphOf(attributes) == GlyphOf(attributes[i..])
    {
      var attr := attributes[i];
      if attr.StickerAttribute? {
        emoji := if attr.alt == "" then DefaultGlyph else attr.alt;
        return;
      }
      assert attributes[i..][1..] == attributes[i + 1..];
      i := i + 1;
    }
  }

  /** The `try` block of one iteration for a sticker that becomes emoji
      number `n` if it converts; `Skipped` stands for `skipped += 1;
      continue` and `Failed` for an exception caught by the loop. */
  method ConvertOne(sticker: Sticker, n: nat, encoderPresent: bool) returns (o: Outcome)
    ensures o == Process(sticker, n, encoderPresent)
  {
    var emoji := PickGlyph(sticker.attributes);
    var isVideo := IsVideo(sticker);
    var isTgs := IsAnimated(sticker);
    var format, ext := if isVideo then Video else Static, if isVideo then ".webm" else ".png";
    var path := FileName(n, emoji, ext);
    if !sticker.downloadOk {
      // download_media raised
      return Failed;
    }
    if isVideo {
      return Converted(Record(path, emoji, format), Verbatim);
    } else if isTgs {
      var clip, _ := RenderWebm(sticker.tgs, encoderPresent);
      if clip.Some? {
        PngToWebm(n, emoji);
        path := WithSuffix(path, ".webm");
        format := Video;
        return Converted(Record(path, emoji, format), Webm(clip.value));
      }
      var png := FirstFramePng(sticker.tgs);
      if png.None? {
        return Skipped;
      }
      return Converted(Record(path, emoji, format), Png(png.value));
    } else {
      if sticker.image.Undecodable? {
        // Image.open raised
        return Failed;
      }
      var w, h := sticker.image.width, sticker.image.height;
      var offset := (CentreOffset(EmojiSize, w), CentreOffset(EmojiSize, h));
      return Converted(Record(path, emoji, format), Png(Layer(EmojiSize, offset.0, offset.1, w, h)));
    }
  }

  /** A fetched sticker set: its title and its documents, in order. */
  datatype StickerSet = StickerSet(title: string, documents: seq<Sticker>)

  /** `download_and_convert_stickers`: returns the records and the pack
      title, with the skip tally it reports; `files`, `sources` and
      `examined` record what was written, where each record came from and
      how many stickers were downloaded. */
  method ConvertStickers(stickerSet: StickerSet, limit: int, encoderPresent: bool)
    returns (converted: seq<Record>, packTitle: string, skipped: nat,
             ghost files: seq<Artifact>, ghost sources: seq<nat>, ghost examined: nat)
    ensures packTitle == stickerSet.title
    ensures Batch(converted, files, sources, skipped, examined) == Convert(stickerSet.documents, limit, encoderPresent)
  {
    var stickers := stickerSet.documents;
    packTitle := stickerSet.title;
    converted, skipped := [], 0;
    files, sources := [], [];
    ghost var drafts := Drafts(stickers, encoderPresent);
    var i := 0;
    while i < |stickers|
      invariant i <= |stickers|
      invariant Run(drafts, limit, FileName, Batch(converted, files, sources, skipped, i)) == Convert(stickers, limit, encoderPresent)
    {
      if |converted| >= limit {
        break;
      }
      ghost var before := Batch(converted, files, sources, skipped, i);
      RunStep(drafts, limit, FileName, before);
      var o := ConvertOne(stickers[i], |converted| + 1, encoderPresent);
      assert Step(drafts, FileName, before) == Advance(before, o);
      match o {
        case Converted(record, file) =>
          converted := converted + [record];
          files := files + [file];
          sources := sources + [i];
        case Skipped =>
          skipped := skipped + 1;
        case Failed =>
      }
      i := i + 1;
      assert Batch(converted, files, sources, skipped, i) == Advance(before, o);
    }
    examined := i;
  }
}
