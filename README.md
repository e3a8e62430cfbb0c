# Invoice extraction demo: the request pipeline, verified

`app.py` is a Gradio front end. It sends an uploaded invoice image and an
optional prompt to a pretrained vision-language model (through llama.cpp) and
shows the model's answer. Almost all of the file is loading and UI glue. The
logic of its own fits in two functions, and this project models both:

- `image_to_data_uri` turns the image bytes into `data:image/jpeg;base64,<payload>`.
  The payload is the padded, standard-alphabet base64 of section 4 of RFC 4648,
  which is what Python's `base64.b64encode` produces.
- `extract_info` does four things:
  - it refuses a missing image path with a fixed Vietnamese warning and does not call the model;
  - it strips the user prompt and falls back to a fixed Vietnamese extraction instruction when nothing is left;
  - it builds a two-message chat request (a system message, then a user message made of a text part and an image part);
  - it turns any `Exception` raised by the model call into `"[ERROR] " + message`.

Modules:

| file | module | models |
|---|---|---|
| `wrappers.dfy` | `Wrappers` | `Option` |
| `base64.dfy` | `Base64` | `base64.b64encode`, group by group; a strict RFC 4648 decoder as its inverse |
| `data_uri.dfy` | `DataUri` | `image_to_data_uri`, and the reading of a data URI back into bytes |
| `prompt.dfy` | `Prompt` | `str.strip()` and the `or` default on the prompt |
| `conversation.dfy` | `Conversation` | the `messages` list |
| `extract.dfy` | `Extract` | `extract_info`: guard, request, try/except |

Outside effects are parameters of `Extract.ExtractInfo`:

- The file read is `readFile: string -> seq<byte>`.
- The model call is `model: Chat -> CallOutcome`. It either returns the completion's choices or raises with a message.

The result records the request that was sent, with `None` when no call was
made. This lets a contract state "no model call".

The source has no decoder. `Base64.Decode` is the reference that the encoder
is proved against. It follows RFC 4648 strictly:

- characters outside the alphabet are refused (section 3.3);
- padding is accepted only at the end;
- the unused bits before padding must be zero (section 3.5).

So text and bytes correspond one to one: `Decode(t) == Some(b)` exactly when
`t == Encode(b)`.

`image_to_data_uri` accepts any bytes, the empty image included, and then gives
the header and an empty payload.

## Model

| member | source | states |
|---|---|---|
| `Base64.CharOf` | app.py:25 | every 6-bit value maps to a character of the standard alphabet (Table 1 of RFC 4648) |
| `Base64.ValueOf` | app.py:25 | a character has a 6-bit value exactly when it is in the standard alphabet; the pad `=` has none |
| `Base64.ValueOfCharOf` | app.py:25 | ValueOf undoes CharOf on all 64 values |
| `Base64.CharOfValueOf` | app.py:25 | CharOf undoes ValueOf on every alphabet character |
| `Base64.Encode` | app.py:25 | `b64encode` produces EncodedLength(n) characters for n bytes: four per started group of three |
| `Base64.EncodedLengthIsFourCeilThirds` | app.py:25 | the payload length is 4·⌈n/3⌉ |
| `Base64.EncodeShape` | app.py:25 | the payload is alphabet characters followed by exactly (3 − n mod 3) mod 3 pad characters (at most two); `=` appears nowhere else |
| `Base64.DecodeEncode` | app.py:25 | decoding the encoding of any bytes gives those bytes back exactly |
| `Base64.EncodeDecode` | app.py:25 | any text the strict decoder accepts is the encoding of what it decodes to |
| `Base64.DecodeIffEncoding` | app.py:25 | a text decodes to bytes b if and only if it is the encoding of b |
| `Base64.EncodeInjective` | app.py:25 | different byte sequences never get the same encoding |
| `Base64.Rfc4648TestVectors` | app.py:25 | the encoder gives the RFC 4648 section 10 results for "", "f", "fo", "foo", "foob", "fooba", "foobar" |
| `Base64.OneToTenVector` | app.py:25 | the bytes 1..10 encode to `AQIDBAUGBwgJCg==` |
| `DataUri.ImageToDataUri` | app.py:24-26 | the URI has 23 header characters plus the encoded length of the image |
| `DataUri.Payload` | app.py:26 | a text has a payload exactly when it begins with `data:image/jpeg;base64,`, and it is then the header followed by the payload |
| `DataUri.DataUriShape` | app.py:24-26 | the URI is the fixed JPEG header followed by exactly the base64 of the bytes, with no check of the bytes; its length is 23 + 4·⌈n/3⌉; the payload uses only the alphabet, with at most two pads at the end |
| `DataUri.DataUriRoundTrip` | app.py:24-26 | decoding the payload after the header gives back the image bytes exactly |
| `DataUri.DataUriExact` | app.py:24-26 | a URI decodes to image b if and only if it is the URI built from b |
| `Prompt.TrimStart` | app.py:34 | returns a suffix of the text; everything dropped is whitespace; the result is empty or starts with a non-whitespace character |
| `Prompt.TrimEnd` | app.py:34 | returns a prefix of the text; everything dropped is whitespace; the result is empty or ends with a non-whitespace character |
| `Prompt.Strip` | app.py:34 | `strip()` leaves a text that is empty or has non-whitespace at both ends; it is empty exactly when the input is all whitespace |
| `Prompt.StripUnique` | app.py:34 | stripping whitespace + t + whitespace, for any trimmed t, gives exactly t |
| `Prompt.StripDecomposes` | app.py:34 | every text is whitespace, then its stripped text, then whitespace; with StripUnique this determines `strip()` completely |
| `Prompt.StripIdempotent` | app.py:34 | stripping twice is the same as stripping once |
| `Prompt.DefaultInstructionTrimmed` | app.py:34 | the default instruction is non-empty and has no surrounding whitespace |
| `Prompt.PromptText` | app.py:34 | the prompt text is never empty and never padded; it is the stripped prompt unless the prompt is all whitespace, and the default instruction in that case |
| `Prompt.PromptTextKeepsTrimmed` | app.py:34 | a non-empty prompt with no surrounding whitespace is sent unchanged |
| `Conversation.ComposeRequest` | app.py:33-41 | exactly two messages: first `system` with the fixed system text, then `user` with content [`text` part, `image_url` part] in that order; the text is the prompt text and the url is the data URI of the image |
| `Conversation.RequestCarriesPromptAndImage` | app.py:33-41 | the request's instruction is non-empty and trimmed, and its image url decodes to exactly the uploaded bytes |
| `Conversation.RequestDeterminesImage` | app.py:33-41 | two equal requests carry the same image |
| `Extract.ErrorText` | app.py:46 | the error text is `[ERROR] ` followed by the message, and nothing else |
| `Extract.FailSoft` | app.py:42-46 | a raised call yields `[ERROR] <message>`; a returned response yields its first choice's content; an empty choice list is caught as the IndexError it raises |
| `Extract.ExtractInfo` | app.py:28-46 | no request is made if and only if the path is None or empty, and then the result is the upload warning; otherwise the request is the composed request for the file's bytes and the result is the fail-soft reading of the model's answer |
| `Extract.ModelSeesPromptAndImage` | app.py:28-46 | whenever the model is called, the request is well formed, its instruction is the prompt text and is not empty, and its image decodes to exactly the file's bytes |
| `Extract.BlankPromptUsesDefault` | app.py:34-41 | with an image and an all-whitespace prompt, the model receives the default instruction |
| `Extract.FailureIsContained` | app.py:42-46 | when the model call raises, the result starts with `[ERROR] ` and the rest is the exception's message |
| `Extract.ErrorsIndistinguishable` | app.py:42-46 | a model answer `[ERROR] m` and a call that raised with m give the same result string |
| `Extract.TenOctetsBlankPrompt` | app.py:28-46 | with bytes 1..10 and the prompt "  ", the model gets the default instruction and the URL `data:image/jpeg;base64,AQIDBAUGBwgJCg==`, and a raised call comes back as `[ERROR] <message>` |

## Left out

- Model and chat-handler loading from the Hugging Face hub (app.py:11-22): network access and a foreign library, done once per process with no logic of its own.
- The log-level environment variable (app.py:8): a process configuration side effect.
- The file read (app.py:31-32): I/O. It is the `readFile` parameter, and an exception from `open` (which `extract_info` does not catch) is not modelled.
- The internals of `llm.create_chat_completion` (app.py:43): an external multimodal model. The model is the `model` parameter, returning either the list of choice contents or a raised message.
- Extract.FailSoft: the response is modelled as a list of choice contents. A malformed response that raises a `KeyError` inside the `try` is not modelled, and neither is a `None` content, which `extract_info` would return as is. The one malformed response that is modelled is an empty `choices` list.
- Extract.FailSoft: `Raised` stands only for exceptions of class `Exception`, the class the `except` clause at app.py:45 catches. A `KeyboardInterrupt`, `SystemExit` or `GeneratorExit` raised in the model call propagates out of `extract_info`, and the model does not capture that.
- Extract.ExtractInfo: `user_prompt` is always a string. A `None` prompt, on which `.strip()` raises outside the `try`, is not modelled.
- The Gradio layout, event wiring, CSS and `demo.launch()` (app.py:48-108): presentation code.
- MIME sniffing or JPEG validation: the code labels every image `image/jpeg` without looking at it (app.py:26), and so does the model.
- Prompt.IsWhitespace is a fixed table of the code points Python's `str.isspace` accepts, which is what `str.strip()` removes. The proofs about stripping use only the fact that it is a predicate on characters.
