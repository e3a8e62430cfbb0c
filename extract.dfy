/**
 * extract_info: the guard against a missing image, the request, and the
 * fail-soft boundary around the model call. Reading the file and running
 * the model are outside the model: the file read is a function from path to
 * octets, the model a function from request to what the call did.
 */
module Extract {
  import opened Wrappers
  import opened Base64
  import opened Prompt
  import opened Conversation
  import DataUri

  /** "Please upload an invoice image!" */
  const UploadWarning: string := "Vui lòng upload ảnh hóa đơn!"

  const ErrorPrefix: string := "[ERROR] "

  /** The message of the IndexError `resp["choices"][0]` raises on an empty list. */
  const NoChoiceMessage: string := "list index out of range"

  /** `choices[i]["message"]["content"]` of a chat completion. */
  datatype Choice = Choice(content: string)

  /**
   * What create_chat_completion did: returned a response's choices, or raised
   * an `Exception` (the class the `except` clause names) with a message.
   */
  datatype CallOutcome = Returned(choices: seq<Choice>) | Raised(message: string)

  /** What extract_info returns, and the request it handed to the model (None when it made no call). */
  datatype Extraction = Extraction(result: string, request: Option<Chat>)

  /** Python's truthiness for the image path: None and "" are false. */
  predicate PathGiven(imagePath: Option<string>) {
    imagePath.Some? && imagePath.value != []
  }

  /** The `[ERROR] <message>` text returned in place of an exception. */
  function ErrorText(message: string): (text: string)
    ensures |text| == |ErrorPrefix| + |message|
    ensures text[..|ErrorPrefix|] == ErrorPrefix && text[|ErrorPrefix|..] == message
  {
    ErrorPrefix + message
  }

  /**
   * The try/except around the model call: the first choice's content when
   * there is one; otherwise, and whenever the call raised, the error text.
   */
  function FailSoft(outcome: CallOutcome): (result: string)
    ensures outcome.Raised? ==> result == ErrorText(outcome.message)
    ensures outcome.Returned? && outcome.choices != [] ==> result == outcome.choices[0].content
    ensures outcome.Returned? && outcome.choices == [] ==> result == ErrorText(NoChoiceMessage)
  {
    match outcome
    case Raised(message) => ErrorText(message)
    case Returned(choices) =>
      if choices == [] then ErrorText(NoChoiceMessage) else choices[0].content
  }

  /** extract_info(image_path, user_prompt). */
  function ExtractInfo(
    imagePath: Option<string>,
    userPrompt: string,
    readFile: string -> seq<byte>,
    model: Chat -> CallOutcome
  ): (e: Extraction)
    ensures !PathGiven(imagePath) <==> e.request.None?
    ensures !PathGiven(imagePath) ==> e.result == UploadWarning
    ensures PathGiven(imagePath) ==>
      && e.request == Some(ComposeRequest(userPrompt, readFile(imagePath.value)))
      && e.result == FailSoft(model(e.request.value))
  {
    if !PathGiven(imagePath) then
      Extraction(UploadWarning, None)
    else
      var image := readFile(imagePath.value);
      var request := ComposeRequest(userPrompt, image);
      Extraction(FailSoft(model(request)), Some(request))
  }

  /**
   * Whenever extract_info calls the model, the request is well shaped, its
   * instruction is not empty, and its image decodes to the file's octets.
   */
  lemma ModelSeesPromptAndImage(
    imagePath: Option<string>, userPrompt: string,
    readFile: string -> seq<byte>, model: Chat -> CallOutcome)
    requires PathGiven(imagePath)
    ensures var e := ExtractInfo(imagePath, userPrompt, readFile, model);
      && e.request.Some?
      && WellShaped(e.request.value)
      && InstructionOf(e.request.value) == PromptText(userPrompt)
      && InstructionOf(e.request.value) != []
      && ImageOf(e.request.value) == Some(readFile(imagePath.value))
  {
    RequestCarriesPromptAndImage(userPrompt, readFile(imagePath.value));
  }

  /** A blank prompt sends the default instruction, whatever the image. */
  lemma BlankPromptUsesDefault(
    imagePath: Option<string>, userPrompt: string,
    readFile: string -> seq<byte>, model: Chat -> CallOutcome)
    requires PathGiven(imagePath) && AllWhitespace(userPrompt)
    ensures InstructionOf(ExtractInfo(imagePath, userPrompt, readFile, model).request.value) == DefaultInstruction
  {
  }

  /** A call that raised an `Exception` does not escape: the result is "[ERROR] " followed by its message. */
  lemma FailureIsContained(
    imagePath: Option<string>, userPrompt: string,
    readFile: string -> seq<byte>, model: Chat -> CallOutcome)
    requires PathGiven(imagePath)
    requires model(ComposeRequest(userPrompt, readFile(imagePath.value))).Raised?
    ensures var e := ExtractInfo(imagePath, userPrompt, readFile, model);
      var message := model(e.request.value).message;
      && e.result[..|ErrorPrefix|] == ErrorPrefix
      && e.result[|ErrorPrefix|..] == message
  {
  }

  /**
   * The result is a bare string: a model that answers with "[ERROR] m"
   * cannot be told apart from a call that raised with message m.
   */
  lemma ErrorsIndistinguishable(message: string)
    ensures FailSoft(Returned([Choice(ErrorText(message))])) == FailSoft(Raised(message))
  {
  }

  /**
   * Ten octets 1..10 and a prompt of two spaces: the model is asked with the
   * default instruction and the image "AQIDBAUGBwgJCg==", and a call that
   * raises comes back as an error text.
   */
  lemma TenOctetsBlankPrompt(readFile: string -> seq<byte>, model: Chat -> CallOutcome)
    requires readFile("invoice.jpg") == [1, 2, 3, 4, 5, 6, 7, 8, 9, 10]
    ensures var e := ExtractInfo(Some("invoice.jpg"), "  ", readFile, model);
      && e.request.Some?
      && InstructionOf(e.request.value) == DefaultInstruction
      && e.request.value[1].content.parts[1].url == DataUri.JpegHeader + "AQIDBAUGBwgJCg=="
      && (model(e.request.value).Raised? ==> e.result == "[ERROR] " + model(e.request.value).message)
  {
    OneToTenVector();
    assert AllWhitespace("  ") by {
      assert "  "[0] == ' ' && "  "[1] == ' ';
    }
  }
}
