/** The string rules around fetching and publishing a pack: the name
    extracted from a pack link (`get_sticker_pack`), and in
    `upload_and_create_emoji_pack` the `_by_<bot>` suffix, the content type
    of each uploaded file, the upload loop and the refusal to create a pack
    from no uploads. The bot API replies are parameters. */
module Publish {
  import opened Wrappers
  import opened Text
  import opened Conversion

  const AddEmojiPrefix := "addemoji?set="
  const PackLinkPrefix := "https://t.me/addemoji/"

  /** The short name looked up for a pack given by name or by link: the last
      path segment, and of an `addemoji?set=` segment the text after its
      last `=`. */
  function FetchName(packName: string): (r: string)
    ensures '/' !in r
  {
    var segment := AfterLast(packName, '/');
    if StartsWith(segment, AddEmojiPrefix) then AfterLast(segment, '=') else segment
  }

  /** The segment `addemoji?set=<x>` starts with the prefix, holds no `/`,
      and yields what `x` yields after its last `=`. */
  lemma AddEmojiSegment(x: string)
    requires '/' !in x
    ensures '/' !in AddEmojiPrefix + x
    ensures StartsWith(AddEmojiPrefix + x, AddEmojiPrefix)
    ensures AfterLast(AddEmojiPrefix + x, '=') == AfterLast(x, '=')
  {
    var segment := AddEmojiPrefix + x;
    assert forall i :: 0 <= i < |AddEmojiPrefix| ==> segment[i] == AddEmojiPrefix[i];
    assert segment[..|AddEmojiPrefix|] == AddEmojiPrefix;
    assert segment == "addemoji?set" + ['='] + x;
    if '=' in x {
      AfterLastInTail("addemoji?set" + ['='], x, '=');
    } else {
      AfterLastAppend("addemoji?set", '=', x);
      AfterLastAbsent(x, '=');
    }
  }

  /** A bare `addemoji?set=<x>` or a link ending in `/addemoji?set=<x>`
      yields the text of `x` after its last `=`, which is `x` itself when
      `x` holds no `=`. */
  lemma FetchNameAddEmoji(base: string, x: string)
    requires '/' !in x
    ensures FetchName(AddEmojiPrefix + x) == AfterLast(x, '=')
    ensures FetchName(base + "/" + (AddEmojiPrefix + x)) == AfterLast(x, '=')
    ensures '=' !in x ==> FetchName(base + "/" + (AddEmojiPrefix + x)) == x
  {
    var segment := AddEmojiPrefix + x;
    AddEmojiSegment(x);
    AfterLastAbsent(segment, '/');
    AfterLastAppend(base, '/', segment);
    if '=' !in x {
      AfterLastAbsent(x, '=');
    }
  }

  /** Any other link yields its last path segment unchanged. */
  lemma FetchNameLastSegment(base: string, name: string)
    requires '/' !in name && !StartsWith(name, AddEmojiPrefix)
    ensures FetchName(base + "/" + name) == name
  {
    AfterLastAppend(base, '/', name);
  }

  /** Normalising an already normalised name changes nothing. */
  lemma FetchNameIdempotent(packName: string)
    ensures FetchName(FetchName(packName)) == FetchName(packName)
  {
    var r := FetchName(packName);
    var segment := AfterLast(packName, '/');
    AfterLastAbsent(r, '/');
    if StartsWith(segment, AddEmojiPrefix) {
      // r holds no '=', while the prefix does
      assert AddEmojiPrefix[12] == '=';
      assert !StartsWith(r, AddEmojiPrefix) by {
        assert '=' !in r;
        if |AddEmojiPrefix| <= |r| {
          assert r[12] == '=' || r[..|AddEmojiPrefix|] != AddEmojiPrefix;
        }
      }
    }
  }

  /** The pack name used for the upload: `_by_<bot>` is appended unless it
      is already there. */
  function UploadName(packName: string, botUsername: string): (r: string)
    ensures EndsWith(r, "_by_" + botUsername)
    ensures StartsWith(r, packName)
    ensures EndsWith(packName, "_by_" + botUsername) ==> r == packName
    ensures !EndsWith(packName, "_by_" + botUsername) ==> |r| == |packName| + 4 + |botUsername|
  {
    var suffix := "_by_" + botUsername;
    if EndsWith(packName, suffix) then packName
    else
      assert (packName + suffix)[|packName|..] == suffix;
      assert (packName + suffix)[..|packName|] == packName;
      packName + suffix
  }

  /** Fixing the name twice is fixing it once. */
  lemma UploadNameIdempotent(packName: string, botUsername: string)
    ensures UploadName(UploadName(packName, botUsername), botUsername) == UploadName(packName, botUsername)
  {
  }

  /** The content type sent with each file, chosen by its tag. */
  function ContentType(format: Format): string {
    if FormatName(format) == "video" then "video/webm" else "image/png"
  }

  /** Any name ending in a tag's extension tells the tag apart: `video/webm`
      exactly for `.webm` and `image/png` exactly for `.png`. */
  lemma ExtensionTellsContentType(stem: string, f: Format)
    ensures ContentType(f) == "video/webm" <==> EndsWith(stem + Extension(f), ".webm")
    ensures ContentType(f) == "image/png" <==> EndsWith(stem + Extension(f), ".png")
  {
    var name := stem + Extension(f);
    assert name[|name| - |Extension(f)|..] == Extension(f);
    assert name[|name| - 1] == Extension(f)[|Extension(f)| - 1];
  }

  /** A file named as an emoji is announced with the content type its
      extension names. */
  lemma ContentTypeMatchesName(rec: Record, n: nat)
    requires NamedAs(rec, n)
    ensures ContentType(rec.format) == "video/webm" <==> EndsWith(rec.path, ".webm")
    ensures ContentType(rec.format) == "image/png" <==> EndsWith(rec.path, ".png")
  {
    FileNameStem(n, rec.glyph, Extension(rec.format));
    ExtensionTellsContentType(Stem(n, rec.glyph), rec.format);
  }

  /** The content type announced for each converted record is that of the
      file actually written. */
  lemma ContentTypeMatchesFile(stickers: seq<Stickers.Sticker>, limit: int, encoderPresent: bool)
    ensures var r := Convert(stickers, limit, encoderPresent);
      forall k :: 0 <= k < |r.converted| ==>
        && (ContentType(r.converted[k].format) == "video/webm" <==> EndsWith(r.converted[k].path, ".webm"))
        && (ContentType(r.converted[k].format) == "image/png" <==> EndsWith(r.converted[k].path, ".png"))
  {
    ConvertNames(stickers, limit, encoderPresent);
    var records := Convert(stickers, limit, encoderPresent).converted;
    forall k | 0 <= k < |records|
      ensures ContentType(records[k].format) == "video/webm" <==> EndsWith(records[k].path, ".webm")
      ensures ContentType(records[k].format) == "image/png" <==> EndsWith(records[k].path, ".png")
    {
      ContentTypeMatchesName(records[k], k + 1);
    }
  }

  /** The reply to one `uploadStickerFile` call. */
  datatype UploadReply =
    | Uploaded(fileId: string)       // ok, with the file id
    | Rejected(description: string)  // not ok
    | Raised                         // the file could not be read or the call raised

  /** A converted record together with the reply its upload gets. */
  datatype Upload = Upload(file: Record, reply: UploadReply)

  /** An entry of the `stickers` list sent to `createNewStickerSet`. */
  datatype InputSticker = InputSticker(sticker: string, emojiList: seq<string>, format: Format)

  function Entry(u: Upload): InputSticker
    requires u.reply.Uploaded?
  {
    InputSticker(u.reply.fileId, [u.file.glyph], u.file.format)
  }

  /** The entries the upload loop collects: one per accepted upload, in
      order; rejected and failed uploads are passed over. */
  function Accepted(uploads: seq<Upload>): (r: seq<InputSticker>)
    ensures |r| <= |uploads|
    ensures r == [] <==> forall i :: 0 <= i < |uploads| ==> !uploads[i].reply.Uploaded?
    ensures forall e :: e in r ==> exists i :: 0 <= i < |uploads| && uploads[i].reply.Uploaded? && e == Entry(uploads[i])
    ensures forall i :: 0 <= i < |uploads| && uploads[i].reply.Uploaded? ==> Entry(uploads[i]) in r
  {
    if uploads == [] then []
    else
      var init, last := uploads[..|uploads| - 1], uploads[|uploads| - 1];
      var r := Accepted(init) + (if last.reply.Uploaded? then [Entry(last)] else []);
      assert forall i :: 0 <= i < |init| ==> init[i] == uploads[i];
      r
  }

  /** The positions of the accepted uploads. */
  function AcceptedPositions(uploads: seq<Upload>): set<nat> {
    set i: nat | i < |uploads| && uploads[i].reply.Uploaded?
  }

  /** Appending an upload adds its position exactly when it is accepted. */
  lemma AcceptedPositionsSnoc(uploads: seq<Upload>)
    requires uploads != []
    ensures var n := |uploads| - 1;
      |AcceptedPositions(uploads)| ==
        |AcceptedPositions(uploads[..n])| + (if uploads[n].reply.Uploaded? then 1 else 0)
  {
    var n := |uploads| - 1;
    var before, now := AcceptedPositions(uploads[..n]), AcceptedPositions(uploads);
    var added: set<nat> := if uploads[n].reply.Uploaded? then {n} else {};
    forall i: nat
      ensures i in now <==> i in before + added
    {
      if i < n {
        assert uploads[..n][i] == uploads[i];
      }
    }
    assert now == before + added;
  }

  /** One entry per accepted upload: the entries number the accepted
      uploads. */
  lemma {:induction false} AcceptedCount(uploads: seq<Upload>)
    ensures |Accepted(uploads)| == |AcceptedPositions(uploads)|
  {
    if uploads != [] {
      AcceptedCount(uploads[..|uploads| - 1]);
      AcceptedPositionsSnoc(uploads);
    }
  }

  /** Entries keep the order of the uploads: those of an earlier batch of
      uploads come before those of a later one. */
  lemma {:induction false} AcceptedConcat(a: seq<Upload>, b: seq<Upload>)
    ensures Accepted(a + b) == Accepted(a) + Accepted(b)
  {
    if b != [] {
      var init := b[..|b| - 1];
      assert (a + b)[..|a + b| - 1] == a + init;
      AcceptedConcat(a, init);
    } else {
      assert a + b == a;
    }
  }

  /** The upload loop of `upload_and_create_emoji_pack`. */
  method UploadAll(uploads: seq<Upload>) returns (stickers: seq<InputSticker>)
    ensures stickers == Accepted(uploads)
  {
    stickers := [];
    var i := 0;
    while i < |uploads|
      invariant i <= |uploads|
      invariant stickers == Accepted(uploads[..i])
    {
      assert uploads[..i + 1][..i] == uploads[..i];
      var u := uploads[i];
      match u.reply {
        case Uploaded(fileId) =>
          stickers := stickers + [InputSticker(fileId, [u.file.glyph], u.file.format)];
        case Rejected(_) =>
        case Raised =>
      }
      i := i + 1;
    }
    assert uploads[..i] == uploads;
  }

  datatype PublishError = NoStickersUploaded | CreateFailed

  /** The `createNewStickerSet` request. */
  datatype CreateRequest = CreateRequest(name: string, title: string, stickers: seq<InputSticker>)

  /** `upload_and_create_emoji_pack` from the bot's user name on: fixes the
      pack name, uploads every record, refuses to go on with no accepted
      upload, sends the create request (`request`), and returns the link of
      the new pack unless the create call fails. */
  method CreateEmojiPack(uploads: seq<Upload>, packName: string, packTitle: string, botUsername: string, createOk: bool)
    returns (result: Result<string, PublishError>, request: Option<CreateRequest>)
    ensures request.Some? <==> exists i :: 0 <= i < |uploads| && uploads[i].reply.Uploaded?
    ensures request.Some? ==> request.value == CreateRequest(UploadName(packName, botUsername), packTitle, Accepted(uploads))
    ensures result == Err(NoStickersUploaded) <==> request.None?
    ensures result.Ok? <==> request.Some? && createOk
    ensures result.Ok? ==> result.value == PackLinkPrefix + UploadName(packName, botUsername)
  {
    var name := UploadName(packName, botUsername);
    var stickers := UploadAll(uploads);
    if stickers == [] {
      return Err(NoStickersUploaded), None;
    }
    request := Some(CreateRequest(name, packTitle, stickers));
    if !createOk {
      return Err(CreateFailed), request;
    }
    result := Ok(PackLinkPrefix + name);
  }
}
