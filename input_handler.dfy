/** Input dispatch and image encoding. What the chat widget returns is one of
    three shapes; the encoder of a file's bytes (reading the upload and
    base64-encoding it) is a parameter that may fail per file. */
module InputHandler {
  import opened Types

  /** What the chat input widget can hand over: plain text, a value carrying
      text and possibly files, or anything else (named by its type). */
  datatype UserInput =
    | PlainText(text: string)
    | ChatInputValue(text: string, files: Option<seq<UploadedFile>>)
    | Unexpected(typeName: string)

  datatype InputError = UnexpectedInputType(typeName: string)

  /** `process_user_input`: the prompt text and the list of uploaded files. */
  function ProcessUserInput(userInput: UserInput): (r: Result<(string, seq<UploadedFile>), InputError>)
    ensures r.Err? <==> userInput.Unexpected?
    ensures r.Err? ==> r.error == UnexpectedInputType(userInput.typeName)
    ensures userInput.PlainText? ==> r == Ok((userInput.text, []))
    ensures userInput.ChatInputValue? ==>
      && r.Ok? && r.value.0 == userInput.text
      && (userInput.files.Some? ==> r.value.1 == userInput.files.value)
      && (userInput.files.None? ==> r.value.1 == [])
  {
    match userInput
    case PlainText(text) => Ok((text, []))
    case ChatInputValue(text, files) => Ok((text, if files.Some? then files.value else []))
    case Unexpected(typeName) => Err(UnexpectedInputType(typeName))
  }

  /** `mime_type.split("/")[-1]`: the text after the last '/', or the whole
      text when it has none. */
  function MimeSubtype(mimeType: string): (r: string)
    ensures |r| <= |mimeType| && r == mimeType[|mimeType| - |r|..]
    ensures '/' !in r
    ensures |r| < |mimeType| ==> mimeType[|mimeType| - |r| - 1] == '/'
  {
    if mimeType == [] then []
    else if mimeType[|mimeType| - 1] == '/' then []
    else MimeSubtype(mimeType[..|mimeType| - 1]) + [mimeType[|mimeType| - 1]]
  }

  /** The encoded image for a file the encoder accepted. */
  function Encoded(file: UploadedFile, data: string): ImageData
  {
    ImageData(MimeSubtype(file.mimeType), data)
  }

  /** What `encode_images` returns: one image per file whose encoding
      succeeded, in the order of the files. */
  function EncodedImages(files: seq<UploadedFile>, encode: UploadedFile -> Option<string>): seq<ImageData>
  {
    if files == [] then []
    else
      var last := files[|files| - 1];
      EncodedImages(files[..|files| - 1], encode)
        + (if encode(last).Some? then [Encoded(last, encode(last).value)] else [])
  }

  /** `encode_images`: a pass over the files that keeps each one that encodes
      and skips each one that fails. */
  method EncodeImages(files: seq<UploadedFile>, encode: UploadedFile -> Option<string>)
    returns (imageData: seq<ImageData>)
    ensures imageData == EncodedImages(files, encode)
  {
    if files == [] {
      return [];
    }
    imageData := [];
    for i := 0 to |files|
      invariant imageData == EncodedImages(files[..i], encode)
    {
      assert files[..i + 1][..i] == files[..i];
      var encodedData := encode(files[i]);
      if encodedData.Some? {
        var fileType := MimeSubtype(files[i].mimeType);
        imageData := imageData + [ImageData(fileType, encodedData.value)];
      }
    }
    assert files[..|files|] == files;
  }

  /** Positions of the files whose encoding succeeds, in increasing order. */
  function Succeeded(files: seq<UploadedFile>, encode: UploadedFile -> Option<string>): seq<nat>
  {
    if files == [] then []
    else
      Succeeded(files[..|files| - 1], encode)
        + (if encode(files[|files| - 1]).Some? then [|files| - 1] else [])
  }

  /** The positions are increasing, in range, and are exactly the files whose
      encoding succeeds. */
  lemma {:induction false} SucceededPositions(files: seq<UploadedFile>, encode: UploadedFile -> Option<string>)
    ensures var idx := Succeeded(files, encode);
      && |idx| <= |files|
      && (forall j :: 0 <= j < |idx| ==> idx[j] < |files| && encode(files[idx[j]]).Some?)
      && (forall j, k :: 0 <= j < k < |idx| ==> idx[j] < idx[k])
      && (forall i :: 0 <= i < |files| && encode(files[i]).Some? ==> i in idx)
  {
    if files != [] {
      var init := files[..|files| - 1];
      SucceededPositions(init, encode);
      assert forall i :: 0 <= i < |init| ==> init[i] == files[i];
    }
  }

  /** The encoded images line up with the positions of `Succeeded`. */
  lemma {:induction false} EncodedImagesAtSucceeded(files: seq<UploadedFile>, encode: UploadedFile -> Option<string>)
    ensures var r, idx := EncodedImages(files, encode), Succeeded(files, encode);
      && |r| == |idx|
      && forall j :: 0 <= j < |idx| ==>
           idx[j] < |files| && encode(files[idx[j]]).Some?
           && r[j] == Encoded(files[idx[j]], encode(files[idx[j]]).value)
  {
    if files != [] {
      var init := files[..|files| - 1];
      EncodedImagesAtSucceeded(init, encode);
      assert forall i :: 0 <= i < |init| ==> init[i] == files[i];
    }
  }

  /** Independent description of the encoded images: they correspond one to
      one, in order, to the files whose encoding succeeds; every such file is
      represented; nothing else is. */
  lemma EncodedImagesAreSucceeded(files: seq<UploadedFile>, encode: UploadedFile -> Option<string>)
    ensures var r, idx := EncodedImages(files, encode), Succeeded(files, encode);
      && |r| == |idx| <= |files|
      && (forall j :: 0 <= j < |idx| ==> idx[j] < |files| && encode(files[idx[j]]).Some?)
      && (forall j, k :: 0 <= j < k < |idx| ==> idx[j] < idx[k])
      && (forall i :: 0 <= i < |files| && encode(files[i]).Some? ==> i in idx)
      && (forall j :: 0 <= j < |idx| ==>
            r[j] == Encoded(files[idx[j]], encode(files[idx[j]]).value))
  {
    SucceededPositions(files, encode);
    EncodedImagesAtSucceeded(files, encode);
  }

  /** Nothing is invented: never more images than files, and exactly as many
      when every file encodes. */
  lemma {:induction false} EncodedImagesLength(files: seq<UploadedFile>, encode: UploadedFile -> Option<string>)
    ensures |EncodedImages(files, encode)| <= |files|
    ensures (forall i :: 0 <= i < |files| ==> encode(files[i]).Some?) ==> |EncodedImages(files, encode)| == |files|
  {
    if files != [] {
      var init := files[..|files| - 1];
      EncodedImagesLength(init, encode);
      assert forall i :: 0 <= i < |init| ==> init[i] == files[i];
    }
  }
}
