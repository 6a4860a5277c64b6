/** Request assembly: the single user message handed to the completion
    service, with the sanitized, enhanced prompt as its first content item and
    one image item per encoded image after it. */
module MessageProcessor {
  import opened Types
  import PromptGenerator

  const DataUrlPrefix: string := "data:image/"
  const DataUrlSeparator: string := ";base64,"

  /** The data URL of an encoded image: "data:image/{type};base64,{data}". */
  function DataUrl(image: ImageData): (url: string)
    ensures |url| == |DataUrlPrefix| + |image.imageType| + |DataUrlSeparator| + |image.data|
    ensures url[..|DataUrlPrefix|] == DataUrlPrefix
    ensures url[|DataUrlPrefix|..|DataUrlPrefix| + |image.imageType|] == image.imageType
    ensures url[|url| - |image.data| - |DataUrlSeparator|..|url| - |image.data|] == DataUrlSeparator
    ensures url[|url| - |image.data|..] == image.data
  {
    DataUrlPrefix + image.imageType + DataUrlSeparator + image.data
  }

  /** The content item for one encoded image. */
  function ImageItem(image: ImageData): ContentItem
  {
    ImageUrlItem(DataUrl(image))
  }

  /** One image item per image, in order. */
  function ImageItems(images: seq<ImageData>): (items: seq<ContentItem>)
    ensures |items| == |images| && forall i :: 0 <= i < |images| ==> items[i] == ImageItem(images[i])
  {
    seq(|images|, i requires 0 <= i < |images| => ImageItem(images[i]))
  }

  /** The text the request carries: the enhanced prompt, sanitized. */
  function RequestText(count: string -> nat, maxTokens: int, prompt: string, chatHistory: Option<seq<ChatMessage>>): string
  {
    PromptGenerator.Sanitized(PromptGenerator.EnhancedPrompt(count, maxTokens, prompt, chatHistory))
  }

  /** The request `generate_user_message` builds: a user message whose first
      item is the text, followed by one image item per image, in order. */
  function BuildUserMessage(count: string -> nat, maxTokens: int, prompt: string,
                            chatHistory: Option<seq<ChatMessage>>, images: seq<ImageData>): (message: UserMessage)
    ensures message.role == "user"
    ensures |message.content| == 1 + |images|
    ensures message.content[0] == TextItem(RequestText(count, maxTokens, prompt, chatHistory))
    ensures forall i :: 0 <= i < |images| ==> message.content[i + 1] == ImageItem(images[i])
  {
    UserMessage("user", [TextItem(RequestText(count, maxTokens, prompt, chatHistory))] + ImageItems(images))
  }

  /** `generate_user_message`: append one image item per image, in order, then
      insert the text item at the front. */
  method GenerateUserMessage(count: string -> nat, maxTokens: int, prompt: string,
                             chatHistory: Option<seq<ChatMessage>>, images: Option<seq<ImageData>>)
    returns (message: UserMessage)
    ensures message == BuildUserMessage(count, maxTokens, prompt, chatHistory,
                                        if images.Some? then images.value else [])
  {
    var all := if images.Some? then images.value else [];
    var content: seq<ContentItem> := [];
    if images.Some? && images.value != [] {
      for i := 0 to |all|
        invariant |content| == i
        invariant forall j :: 0 <= j < i ==> content[j] == ImageItem(all[j])
      {
        content := content + [ImageItem(all[i])];
      }
    }
    assert content == ImageItems(all);
    var enhancedPrompt := PromptGenerator.GenerateEnhancedPrompt(count, maxTokens, prompt, chatHistory);
    var sanitizedPrompt := PromptGenerator.SanitizePrompt(enhancedPrompt);
    content := [TextItem(sanitizedPrompt)] + content;
    message := UserMessage("user", content);
  }

  /** With no history and no images the request is one text item carrying the
      sanitized prompt alone: the prompt is not wrapped in the template. */
  lemma NoHistoryNoImagesText(count: string -> nat, maxTokens: int, prompt: string)
    ensures BuildUserMessage(count, maxTokens, prompt, None, [])
            == UserMessage("user", [TextItem(PromptGenerator.Sanitized(prompt))])
    ensures BuildUserMessage(count, maxTokens, prompt, Some([]), [])
            == UserMessage("user", [TextItem(PromptGenerator.Sanitized(prompt))])
  {
    assert ImageItems([]) == [];
  }
}
