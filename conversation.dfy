/**
 * The chat request extract_info hands to the model: a fixed system message,
 * then a user message whose content is the instruction text followed by the
 * image as a data URI.
 */
module Conversation {
  import opened Wrappers
  import opened Base64
  import opened DataUri
  import opened Prompt

  /** "You are an assistant that reads and extracts information from images." */
  const SystemInstruction: string := "Bạn là trợ lý đọc và trích xuất thông tin từ hình ảnh."

  datatype Role = System | User

  /** One typed part of a message's content: {"type": "text", ...} or {"type": "image_url", ...}. */
  datatype ContentPart = TextPart(text: string) | ImageUrlPart(url: string)

  /** A message's content: a plain string, or a list of typed parts. */
  datatype Content = Plain(text: string) | Parts(parts: seq<ContentPart>)

  datatype Message = Message(role: Role, content: Content)

  type Chat = seq<Message>

  /** The wire name of a role, the `role` field. */
  function RoleName(role: Role): string {
    match role
    case System => "system"
    case User => "user"
  }

  /** The wire name of a part, its `type` field. */
  function PartType(part: ContentPart): string {
    match part
    case TextPart(_) => "text"
    case ImageUrlPart(_) => "image_url"
  }

  /** The request's layout: system message first, then a user message of a text part and an image part, in that order. */
  predicate WellShaped(chat: Chat) {
    && |chat| == 2
    && chat[0] == Message(System, Plain(SystemInstruction))
    && chat[1].role == User
    && chat[1].content.Parts?
    && |chat[1].content.parts| == 2
    && chat[1].content.parts[0].TextPart?
    && chat[1].content.parts[1].ImageUrlPart?
  }

  /** The instruction a well-shaped request carries. */
  function InstructionOf(chat: Chat): string
    requires WellShaped(chat)
  {
    chat[1].content.parts[0].text
  }

  /** The image a well-shaped request carries, decoded from its URL; None if the URL is not a JPEG data URI. */
  function ImageOf(chat: Chat): Option<seq<byte>>
    requires WellShaped(chat)
  {
    DecodeDataUri(chat[1].content.parts[1].url)
  }

  /** The `messages` list built from a user prompt and the uploaded image. */
  function ComposeRequest(userPrompt: string, image: seq<byte>): (chat: Chat)
    ensures WellShaped(chat)
    ensures RoleName(chat[0].role) == "system" && RoleName(chat[1].role) == "user"
    ensures PartType(chat[1].content.parts[0]) == "text" && PartType(chat[1].content.parts[1]) == "image_url"
    ensures InstructionOf(chat) == PromptText(userPrompt)
    ensures chat[1].content.parts[1].url == ImageToDataUri(image)
  {
    var uri := ImageToDataUri(image);
    var text := PromptText(userPrompt);
    [ Message(System, Plain(SystemInstruction)),
      Message(User, Parts([TextPart(text), ImageUrlPart(uri)])) ]
  }

  /**
   * The model is never asked with an empty instruction, and the image it
   * receives decodes to exactly the uploaded octets.
   */
  lemma RequestCarriesPromptAndImage(userPrompt: string, image: seq<byte>)
    ensures var chat := ComposeRequest(userPrompt, image);
      && InstructionOf(chat) != []
      && Trimmed(InstructionOf(chat))
      && ImageOf(chat) == Some(image)
  {
    DataUriRoundTrip(image);
  }

  /** Requests for different images differ: the URL determines the image. */
  lemma RequestDeterminesImage(p1: string, p2: string, i1: seq<byte>, i2: seq<byte>)
    requires ComposeRequest(p1, i1) == ComposeRequest(p2, i2)
    ensures i1 == i2
  {
    RequestCarriesPromptAndImage(p1, i1);
    RequestCarriesPromptAndImage(p2, i2);
  }
}
