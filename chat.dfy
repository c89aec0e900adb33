/** The chat page's controller: the component state as fields, and the event
    handlers that update them step by step. Each handler is proved to perform the
    matching transition of module `ChatSpec`, where its properties are proved. */
module Chat {
  import opened Wrappers
  import opened JsText
  import opened Reply
  import ChatSpec

  class ChatController {
    var messages: seq<ChatSpec.Message>
    var inputValue: string
    var selectedImage: Option<ChatSpec.ImageFile>
    var imagePreview: Option<string>
    var isLoading: bool
    var sessionId: string

    /** The fields, as one value. */
    function State(): ChatSpec.ChatState
      reads this
    {
      ChatSpec.ChatState(messages, inputValue, selectedImage, imagePreview, isLoading, sessionId)
    }

    /** The class invariant: the transcript alternates between user and bot messages,
        and a request is pending exactly when the user spoke last. */
    predicate Valid()
      reads this
    {
      ChatSpec.Alternates(State())
    }

    /** The initial `useState` values. */
    constructor()
      ensures State() == ChatSpec.Initial()
      ensures Valid()
    {
      messages := [];
      inputValue := "";
      selectedImage := None;
      imagePreview := None;
      isLoading := false;
      sessionId := "";
    }

    /** The mount effect: `setSessionId(uuidv4())`, the id given. */
    method InitSession(id: string)
      requires Valid()
      modifies this
      ensures Valid()
      ensures State() == ChatSpec.StartSession(old(State()), id)
    {
      sessionId := id;
    }

    /** The text box's `onChange`. */
    method SetInput(text: string)
      requires Valid()
      modifies this
      ensures Valid()
      ensures State() == ChatSpec.TypeInput(old(State()), text)
    {
      inputValue := text;
    }

    /** `handleImageSelect`: returns the alert shown for a refused file. */
    method HandleImageSelect(file: Option<ChatSpec.ImageFile>) returns (alert: Option<ChatSpec.ImageError>)
      requires Valid()
      modifies this
      ensures Valid()
      ensures State() == ChatSpec.SelectImage(old(State()), file)
      ensures alert == if file.Some? then ChatSpec.ValidateImage(file.value) else None
    {
      if file.None? {
        return None;
      }
      var f := file.value;
      if f.mimeType !in ChatSpec.AcceptedTypes {
        return Some(ChatSpec.UnsupportedType);
      }
      if f.size > ChatSpec.MaxImageSize {
        return Some(ChatSpec.TooLarge);
      }
      selectedImage := Some(f);
      alert := None;
    }

    /** The file reader's `onloadend`, with the data URL it produced, or none when
        the read failed. */
    method PreviewLoaded(result: Option<string>)
      requires Valid()
      modifies this
      ensures Valid()
      ensures State() == ChatSpec.LoadPreview(old(State()), result)
    {
      imagePreview := result;
    }

    /** The reader's completion as evidently intended: the preview is only set
        while the file it was read from is still the staged image. */
    method PreviewLoadedFor(source: ChatSpec.ImageFile, result: Option<string>)
      requires Valid()
      modifies this
      ensures Valid()
      ensures State() == ChatSpec.LoadPreviewFor(old(State()), source, result)
    {
      if selectedImage == Some(source) {
        imagePreview := result;
      }
    }

    /** `removeImage`. */
    method RemoveImage()
      requires Valid()
      modifies this
      ensures Valid()
      ensures State() == ChatSpec.RemoveImage(old(State()))
    {
      selectedImage := None;
      imagePreview := None;
    }

    /** `sendMessage` up to the `fetch`: returns the form it posts, or nothing when
        the guard stops it. */
    method BeginSend(id: string, now: int) returns (form: Option<seq<ChatSpec.FormEntry>>)
      requires Valid()
      modifies this
      ensures Valid()
      ensures State() == ChatSpec.BeginSend(old(State()), id, now)
      ensures form == if ChatSpec.CanSend(old(State())) then Some(ChatSpec.SendForm(old(State()))) else None
    {
      if (IsBlank(inputValue) && selectedImage.None?) || isLoading || sessionId == [] {
        return None;
      }
      var entries := Dispatch(id, now);
      form := Some(entries);
    }

    /** The body of `sendMessage` once its guard has passed: record the user message,
        clear the composer, mark the request pending and build the form. */
    method Dispatch(id: string, now: int) returns (entries: seq<ChatSpec.FormEntry>)
      requires Valid() && ChatSpec.CanSend(State())
      modifies this
      ensures Valid()
      ensures State() == ChatSpec.Dispatched(old(State()), id, now)
      ensures entries == ChatSpec.SendForm(old(State()))
    {
      ghost var st := State();
      var imageUrl := if imagePreview.Some? && imagePreview.value != [] then imagePreview else None;
      var userMessage := ChatSpec.Message(id, inputValue, true, now, imageUrl);
      messages := messages + [userMessage];
      var currentInput, currentImage := inputValue, selectedImage;
      inputValue := "";
      selectedImage := None;
      imagePreview := None;
      isLoading := true;
      entries := [ChatSpec.FormEntry("chatInput", ChatSpec.TextValue(currentInput)),
                  ChatSpec.FormEntry("sessionId", ChatSpec.TextValue(sessionId))];
      if currentImage.Some? {
        entries := entries + [ChatSpec.FormEntry("upload_image", ChatSpec.FileValue(currentImage.value))];
      } else {
        assert entries == entries + [];
      }
      ChatSpec.SendKeepsAlternation(st, id, now);
    }

    /** The rest of `sendMessage`, once the pending request has ended: the bot
        message is appended, whatever the outcome, and loading ends. */
    method CompleteSend(outcome: ChatSpec.SendOutcome, id: string, now: int)
      requires Valid() && isLoading
      modifies this
      ensures Valid()
      ensures State() == ChatSpec.CompleteSend(old(State()), outcome, id, now)
    {
      var text: string;
      if outcome.Response? && outcome.ok {
        text := NormaliseReply(outcome.body, outcome.parsed);
      } else {
        text := ChatSpec.ErrorText;
      }
      ghost var st := State();
      messages := messages + [ChatSpec.Message(id, text, false, now, None)];
      isLoading := false;
      ChatSpec.ReplyKeepsAlternation(st, outcome, id, now);
    }
  }
}
