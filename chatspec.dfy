/** The state of the chat page and what each user action and each server reply does
    to it, as values: the controller class in module `Chat` is proved to follow
    these transitions, and the lemmas below state what they keep. */
module ChatSpec {
  import opened Wrappers
  import opened JsText
  import opened Reply

  /** The size limit of a staged image: 5 MiB, limit included. */
  const MaxImageSize: nat := 5 * 1024 * 1024

  /** The MIME types `handleImageSelect` accepts. */
  const AcceptedTypes: seq<string> := ["image/png", "image/jpeg", "image/jpg"]

  /** The bot message shown when sending fails for any reason. */
  const ErrorText: string := "Sorry, there was an error sending your message. Please try again."

  /** The part of a browser `File` the page looks at. */
  datatype ImageFile = ImageFile(name: string, mimeType: string, size: nat)

  /** A transcript entry. `id` comes from `uuidv4()` and `timestamp` from
      `new Date()`; both are taken as given. */
  datatype Message = Message(id: string, text: string, isUser: bool, timestamp: int,
                             imageUrl: Option<string>)

  /** Why a chosen file was refused (the page shows an alert). */
  datatype ImageError = UnsupportedType | TooLarge

  /** One field of the multipart form posted to `/api/chat`. */
  datatype FormValue = TextValue(text: string) | FileValue(file: ImageFile)
  datatype FormEntry = FormEntry(name: string, value: FormValue)

  /** How the request ended: `fetch` or reading the body threw, or a response came
      back with its status flag, its body text and what `JSON.parse` made of it. */
  datatype SendOutcome = NetworkFailure | Response(ok: bool, body: string, parsed: ParsedBody)

  /** `messages`, `inputValue`, `selectedImage`, `imagePreview`, `isLoading` and
      `sessionId`. */
  datatype ChatState = ChatState(messages: seq<Message>, inputValue: string,
                                 selectedImage: Option<ImageFile>, imagePreview: Option<string>,
                                 isLoading: bool, sessionId: string)

  /** The state before the mount effect has produced a session id. */
  function Initial(): ChatState {
    ChatState([], "", None, None, false, "")
  }

  /** The type test comes first, then the size test; `None` means accepted. */
  function ValidateImage(file: ImageFile): (r: Option<ImageError>)
    ensures r.None? <==> file.mimeType in AcceptedTypes && file.size <= MaxImageSize
    ensures r == Some(UnsupportedType) <==> file.mimeType !in AcceptedTypes
  {
    if file.mimeType !in AcceptedTypes then Some(UnsupportedType)
    else if file.size > MaxImageSize then Some(TooLarge)
    else None
  }

  /** The mount effect stores a fresh session id. */
  function StartSession(st: ChatState, id: string): ChatState {
    st.(sessionId := id)
  }

  /** The text box's `onChange`. */
  function TypeInput(st: ChatState, text: string): ChatState {
    st.(inputValue := text)
  }

  /** `handleImageSelect`: no file or a refused file changes nothing; an accepted
      file is staged. The preview is set later, when the file reader is done. */
  function SelectImage(st: ChatState, file: Option<ImageFile>): ChatState {
    match file
    case None => st
    case Some(f) => if ValidateImage(f).Some? then st else st.(selectedImage := Some(f))
  }

  /** The file reader's `onloadend`: its result becomes the preview, whatever the
      state is by then. The result is the data URL, or none when the read failed. */
  function LoadPreview(st: ChatState, result: Option<string>): ChatState {
    st.(imagePreview := result)
  }

  /** `removeImage`. */
  function RemoveImage(st: ChatState): ChatState {
    st.(selectedImage := None, imagePreview := None)
  }

  /** The guard of `sendMessage`: something to send, no request pending, and a
      session id. */
  predicate CanSend(st: ChatState) {
    !(IsBlank(st.inputValue) && st.selectedImage.None?) && !st.isLoading && st.sessionId != []
  }

  /** `imagePreview || undefined`: a missing or empty preview gives no image. */
  function PreviewUrl(preview: Option<string>): Option<string> {
    if preview.Some? && preview.value != [] then preview else None
  }

  /** The user's message: the input as typed, untrimmed, with the preview. */
  function UserMessage(st: ChatState, id: string, now: int): Message {
    Message(id, st.inputValue, true, now, PreviewUrl(st.imagePreview))
  }

  /** The form `sendMessage` posts: the input, the session id, and the staged
      image when there is one. */
  function SendForm(st: ChatState): seq<FormEntry> {
    [FormEntry("chatInput", TextValue(st.inputValue)), FormEntry("sessionId", TextValue(st.sessionId))] +
    match st.selectedImage
    case Some(f) => [FormEntry("upload_image", FileValue(f))]
    case None => []
  }

  /** Entry `i` is the first entry of the form under that name. */
  predicate FirstNamed(form: seq<FormEntry>, name: string, i: int) {
    0 <= i < |form| && form[i].name == name && forall j :: 0 <= j < i ==> form[j].name != name
  }

  /** The first value stored under a name in a form. */
  function Lookup(form: seq<FormEntry>, name: string): (r: Option<FormValue>)
    ensures r.Some? <==> exists i :: 0 <= i < |form| && form[i].name == name
    ensures r.Some? ==> exists i :: FirstNamed(form, name, i) && r.value == form[i].value
  {
    if form == [] then None
    else if form[0].name == name then Some(form[0].value)
    else
      var r := Lookup(form[1..], name);
      assert forall i :: 1 <= i < |form| ==> form[i] == form[1..][i - 1];
      r
  }

  /** `sendMessage` up to the request: when the guard fails nothing changes;
      otherwise the user message is appended, the input, image and preview are
      cleared and a request is pending. */
  function BeginSend(st: ChatState, id: string, now: int): ChatState {
    if !CanSend(st) then st else Dispatched(st, id, now)
  }

  /** The state once the guard has passed. */
  function Dispatched(st: ChatState, id: string, now: int): ChatState {
    ChatState(st.messages + [UserMessage(st, id, now)], "", None, None, true, st.sessionId)
  }

  /** The text of the bot message: the normalised body of an ok response, the fixed
      error text for a failed request or a status that is not ok. */
  function ReplyText(outcome: SendOutcome): string {
    match outcome
    case Response(true, body, parsed) => NormaliseReply(body, parsed)
    case _ => ErrorText
  }

  /** The rest of `sendMessage`: one bot message is appended and the request is no
      longer pending. */
  function CompleteSend(st: ChatState, outcome: SendOutcome, id: string, now: int): ChatState {
    st.(messages := st.messages + [Message(id, ReplyText(outcome), false, now, None)],
        isLoading := false)
  }

  /** A file is accepted exactly when its type is one of the three and its size is
      at most 5 MiB; exactly 5 MiB is accepted, one byte more is not. */
  lemma ImageSizeLimit(name: string, mimeType: string)
    requires mimeType in AcceptedTypes
    ensures ValidateImage(ImageFile(name, mimeType, MaxImageSize)).None?
    ensures ValidateImage(ImageFile(name, mimeType, MaxImageSize + 1)) == Some(TooLarge)
  {
  }

  /** No file or a refused file leaves the state as it was; an accepted file is
      staged and nothing else changes. */
  lemma SelectImageEffect(st: ChatState, file: Option<ImageFile>)
    ensures file.None? || ValidateImage(file.value).Some? ==> SelectImage(st, file) == st
    ensures file.Some? && ValidateImage(file.value).None? ==>
      SelectImage(st, file) == st.(selectedImage := file)
  {
  }

  /** After `removeImage` nothing is staged, and removing twice is removing once. */
  lemma RemoveImageIdempotent(st: ChatState)
    ensures RemoveImage(st).selectedImage.None? && RemoveImage(st).imagePreview.None?
    ensures RemoveImage(RemoveImage(st)) == RemoveImage(st)
    ensures RemoveImage(st).messages == st.messages && RemoveImage(st).isLoading == st.isLoading
    ensures RemoveImage(st).inputValue == st.inputValue && RemoveImage(st).sessionId == st.sessionId
  {
  }

  /** The posted form carries the input as typed and the session id, and an
      `upload_image` field exactly when an image was staged. */
  lemma SendFormFields(st: ChatState)
    ensures Lookup(SendForm(st), "chatInput") == Some(TextValue(st.inputValue))
    ensures Lookup(SendForm(st), "sessionId") == Some(TextValue(st.sessionId))
    ensures Lookup(SendForm(st), "upload_image").Some? <==> st.selectedImage.Some?
    ensures st.selectedImage.Some? ==>
      Lookup(SendForm(st), "upload_image") == Some(FileValue(st.selectedImage.value))
  {
    var form := SendForm(st);
    assert form[0].name == "chatInput" && form[1].name == "sessionId";
    assert "chatInput" != "sessionId" && "chatInput" != "upload_image" && "sessionId" != "upload_image" by {
      assert "chatInput"[0] != "sessionId"[0] && "chatInput"[0] != "upload_image"[0];
      assert "sessionId"[0] != "upload_image"[0];
    }
    var tail := form[1..][1..];
    assert Lookup(form, "upload_image") == Lookup(tail, "upload_image");
    match st.selectedImage {
      case Some(f) =>
        assert tail == [FormEntry("upload_image", FileValue(f))];
      case None =>
        assert tail == [];
    }
  }

  /** A blocked send changes nothing and posts nothing. */
  lemma BeginSendBlocked(st: ChatState, id: string, now: int)
    requires !CanSend(st)
    ensures BeginSend(st, id, now) == st
  {
  }

  /** An accepted send appends exactly one user message carrying the untrimmed input
      and the preview, clears the input, image and preview, marks a request as
      pending and keeps the session. */
  lemma BeginSendEffect(st: ChatState, id: string, now: int)
    requires CanSend(st)
    ensures var r := BeginSend(st, id, now);
      |r.messages| == |st.messages| + 1 && r.messages[..|st.messages|] == st.messages &&
      r.messages[|st.messages|].isUser && r.messages[|st.messages|].text == st.inputValue &&
      (r.messages[|st.messages|].imageUrl.Some? <==> st.imagePreview.Some? && st.imagePreview.value != []) &&
      (r.messages[|st.messages|].imageUrl.Some? ==> r.messages[|st.messages|].imageUrl == st.imagePreview) &&
      r.inputValue == [] && r.selectedImage.None? && r.imagePreview.None? &&
      r.isLoading && r.sessionId == st.sessionId
  {
    var r := BeginSend(st, id, now);
    assert r.messages[..|st.messages|] == st.messages;
  }

  /** While a request is pending a second send does nothing: at most one request is
      in flight. */
  lemma SingleFlight(st: ChatState, id: string, now: int, id2: string, now2: int)
    requires CanSend(st)
    ensures !CanSend(BeginSend(st, id, now))
    ensures BeginSend(BeginSend(st, id, now), id2, now2) == BeginSend(st, id, now)
  {
  }

  /** On an ok response the bot's text is the clean payload: the `output` string
      when the body is JSON with one, else the whole body. */
  lemma ReplyTextOk(outcome: SendOutcome)
    requires outcome.Response? && outcome.ok
    ensures ReplyText(outcome) == Clean(Payload(outcome.body, outcome.parsed))
  {
    NormaliseReplyIsClean(outcome.body, outcome.parsed);
  }

  /** A request that threw, or a status that is not ok, gives the fixed error text. */
  lemma ReplyTextFailure(outcome: SendOutcome)
    requires !(outcome.Response? && outcome.ok)
    ensures ReplyText(outcome) == ErrorText
  {
  }

  /** What a bot message may say: the error text, or text with no backslash-`n`
      pair and no surrounding whitespace. */
  predicate BotText(t: string) {
    t == ErrorText || (NoEscapes(t) && (t == [] || (!IsWhitespace(t[0]) && !IsWhitespace(t[|t| - 1]))))
  }

  lemma ReplyTextIsBotText(outcome: SendOutcome)
    ensures BotText(ReplyText(outcome))
  {
    if outcome.Response? && outcome.ok {
      ReplyTextOk(outcome);
      CleanSpec(Payload(outcome.body, outcome.parsed));
    }
  }

  /** Completing a send appends exactly one bot message, with the reply text, ends
      the pending request, and leaves earlier messages alone. */
  lemma CompleteSendEffect(st: ChatState, outcome: SendOutcome, id: string, now: int)
    ensures var r := CompleteSend(st, outcome, id, now);
      |r.messages| == |st.messages| + 1 && r.messages[..|st.messages|] == st.messages &&
      !r.messages[|st.messages|].isUser && r.messages[|st.messages|].text == ReplyText(outcome) &&
      BotText(r.messages[|st.messages|].text) && !r.isLoading &&
      r.inputValue == st.inputValue && r.selectedImage == st.selectedImage &&
      r.imagePreview == st.imagePreview && r.sessionId == st.sessionId
  {
    var r := CompleteSend(st, outcome, id, now);
    assert r.messages[..|st.messages|] == st.messages;
    ReplyTextIsBotText(outcome);
  }

  /** Everything that can happen to the page, one step at a time. */
  datatype Event =
    | SessionStarted(id: string)
    | InputChanged(text: string)
    | ImageChosen(file: Option<ImageFile>)
    | PreviewReady(source: ImageFile, result: Option<string>)
    | ImageRemoved
    | SendPressed(id: string, now: int)
    | ReplyArrived(outcome: SendOutcome, replyId: string, replyTime: int)

  /** One event. `PreviewReady` names the file its reader was started for, which
      the page does not look at. A reply only ever arrives for a pending request; one arriving with
      none pending is ignored. */
  function Step(st: ChatState, ev: Event): ChatState {
    match ev
    case SessionStarted(id) => StartSession(st, id)
    case InputChanged(text) => TypeInput(st, text)
    case ImageChosen(file) => SelectImage(st, file)
    case PreviewReady(_, result) => LoadPreview(st, result)
    case ImageRemoved => RemoveImage(st)
    case SendPressed(id, now) => BeginSend(st, id, now)
    case ReplyArrived(outcome, id, now) => if st.isLoading then CompleteSend(st, outcome, id, now) else st
  }

  function Run(st: ChatState, events: seq<Event>): ChatState
    decreases |events|
  {
    if events == [] then st else Run(Step(st, events[0]), events[1..])
  }

  /** The transcript alternates: user messages at even positions, bot messages at
      odd ones, a request is pending exactly when the last message is the user's,
      and every bot message says what a bot message may say. */
  predicate Alternates(st: ChatState) {
    (st.isLoading <==> |st.messages| % 2 == 1) &&
    (forall i :: 0 <= i < |st.messages| ==> (st.messages[i].isUser <==> i % 2 == 0)) &&
    (forall i :: 0 <= i < |st.messages| && !st.messages[i].isUser ==> BotText(st.messages[i].text))
  }

  lemma InitialAlternates()
    ensures Alternates(Initial())
  {
  }

  /** One step keeps the alternation and only ever appends to the transcript. */
  lemma StepKeepsAlternation(st: ChatState, ev: Event)
    requires Alternates(st)
    ensures Alternates(Step(st, ev))
    ensures st.messages <= Step(st, ev).messages
  {
    match ev {
      case SendPressed(id, now) =>
        if CanSend(st) {
          SendKeepsAlternation(st, id, now);
        }
      case ReplyArrived(outcome, id, now) =>
        if st.isLoading {
          ReplyKeepsAlternation(st, outcome, id, now);
        }
      case _ =>
    }
  }

  lemma SendKeepsAlternation(st: ChatState, id: string, now: int)
    requires Alternates(st) && CanSend(st)
    ensures Alternates(BeginSend(st, id, now))
    ensures st.messages <= BeginSend(st, id, now).messages
  {
    var r := BeginSend(st, id, now);
    BeginSendEffect(st, id, now);
    assert forall i :: 0 <= i < |st.messages| ==> r.messages[i] == st.messages[i];
  }

  lemma ReplyKeepsAlternation(st: ChatState, outcome: SendOutcome, id: string, now: int)
    requires Alternates(st) && st.isLoading
    ensures Alternates(CompleteSend(st, outcome, id, now))
    ensures st.messages <= CompleteSend(st, outcome, id, now).messages
  {
    var r := CompleteSend(st, outcome, id, now);
    CompleteSendEffect(st, outcome, id, now);
    assert forall i :: 0 <= i < |st.messages| ==> r.messages[i] == st.messages[i];
  }

  /** From any alternating state, whatever happens: the transcript stays alternating
      and is only ever appended to. */
  lemma {:induction false} RunKeepsAlternation(st: ChatState, events: seq<Event>)
    requires Alternates(st)
    decreases |events|
    ensures Alternates(Run(st, events))
    ensures st.messages <= Run(st, events).messages
  {
    if events != [] {
      StepKeepsAlternation(st, events[0]);
      RunKeepsAlternation(Step(st, events[0]), events[1..]);
    }
  }

  /** As written, a preview that finishes loading after its image was sent comes
      back with no image staged, and the next message shows that picture although
      its form carries no image: choose an image, send it before the reader is done,
      let the reader finish, then type and send a text. */
  lemma StalePreviewSentWithoutImage(st: ChatState, f: ImageFile, text: string, url: string,
                                     outcome: SendOutcome, id1: string, id2: string, id3: string,
                                     t1: int, t2: int, t3: int)
    requires !st.isLoading && st.sessionId != [] && ValidateImage(f).None?
    requires url != [] && !IsBlank(text)
    ensures var s1 := BeginSend(SelectImage(st, Some(f)), id1, t1);
      var s2 := TypeInput(CompleteSend(LoadPreview(s1, Some(url)), outcome, id2, t2), text);
      var s3 := BeginSend(s2, id3, t3);
      CanSend(s2) && Lookup(SendForm(s2), "upload_image").None? &&
      s3.messages[|s3.messages| - 1].imageUrl == Some(url)
  {
    var s0 := SelectImage(st, Some(f));
    assert CanSend(s0);
    var s1 := BeginSend(s0, id1, t1);
    assert s1.selectedImage.None?;
    var s2 := TypeInput(CompleteSend(LoadPreview(s1, Some(url)), outcome, id2, t2), text);
    assert s2.selectedImage.None? && s2.imagePreview == Some(url);
    SendFormFields(s2);
  }

  /** The evident intent: a preview belongs to the file it was read from and is
      only shown while that file is still the staged one. */
  function LoadPreviewFor(st: ChatState, source: ImageFile, result: Option<string>): ChatState {
    if st.selectedImage == Some(source) then st.(imagePreview := result) else st
  }

  /** A preview is only ever shown for a staged image. */
  predicate PreviewHasImage(st: ChatState) {
    st.imagePreview.Some? ==> st.selectedImage.Some?
  }

  /** The page with the preview step corrected. */
  function StepCorrected(st: ChatState, ev: Event): ChatState {
    match ev
    case PreviewReady(source, result) => LoadPreviewFor(st, source, result)
    case _ => Step(st, ev)
  }

  function RunCorrected(st: ChatState, events: seq<Event>): ChatState
    decreases |events|
  {
    if events == [] then st else RunCorrected(StepCorrected(st, events[0]), events[1..])
  }

  lemma StepCorrectedKeepsPreviewHasImage(st: ChatState, ev: Event)
    requires PreviewHasImage(st)
    ensures PreviewHasImage(StepCorrected(st, ev))
  {
  }

  /** With the corrected step, from the initial page on, a preview is only shown for
      a staged image, so a user message carries a picture only when its form
      uploads an image. */
  lemma {:induction false} RunCorrectedUploadsShownImages(st: ChatState, events: seq<Event>,
                                                         id: string, now: int)
    requires PreviewHasImage(st)
    decreases |events|
    ensures PreviewHasImage(RunCorrected(st, events))
    ensures var r := RunCorrected(st, events);
      UserMessage(r, id, now).imageUrl.Some? ==> Lookup(SendForm(r), "upload_image").Some?
  {
    if events != [] {
      StepCorrectedKeepsPreviewHasImage(st, events[0]);
      RunCorrectedUploadsShownImages(StepCorrected(st, events[0]), events[1..], id, now);
    } else {
      SendFormFields(st);
    }
  }
}
