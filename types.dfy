/** Values shared by the components of the chat front-end: the stored chat
    message, the uploaded file, the encoded image and the request sent to the
    completion service. */
module Types {

  datatype Option<+T> = None | Some(value: T)

  datatype Result<+T, +E> = Ok(value: T) | Err(error: E)

  /** One entry of the conversation log. `uploadedFilenames` is present only on
      entries recorded together with uploaded files. */
  datatype ChatMessage = ChatMessage(
    id: string,
    role: string,
    content: string,
    timestamp: string,
    uploadedFilenames: Option<seq<string>>)

  /** A file handed over by the chat input widget: its name, its declared MIME
      type (such as "image/png") and its bytes. */
  datatype UploadedFile = UploadedFile(name: string, mimeType: string, bytes: seq<bv8>)

  /** An encoded image: the MIME subtype and the base64 text of its bytes. */
  datatype ImageData = ImageData(imageType: string, data: string)

  /** One item of the structured request's content list. */
  datatype ContentItem = TextItem(text: string) | ImageUrlItem(url: string)

  /** The message handed to the completion service. */
  datatype UserMessage = UserMessage(role: string, content: seq<ContentItem>)

  /** True when `p` occurs as a contiguous block of `s` starting at index `k`. */
  predicate OccursAt(s: string, p: string, k: int)
  {
    0 <= k && k + |p| <= |s| && s[k..k + |p|] == p
  }

  /** Python's `p in s` on strings. */
  predicate Contains(s: string, p: string)
  {
    exists k | 0 <= k <= |s| :: OccursAt(s, p, k)
  }
}
