/** The chat messages SendMessage in src/App.tsx sends: a system turn, an
    image turn and a reply turn for each replayed history item, and an
    image turn for the new frame. */
module Prompt {
  import opened History
  import FrameCapture

  datatype Role = System | User | Assistant

  /** One `{type: "image_url", image_url: {url}}` content part. */
  datatype Part = ImageUrl(url: string)

  datatype Content = Text(text: string) | Parts(parts: seq<Part>)

  datatype ChatMessage = ChatMessage(role: Role, content: Content)

  /** The persona instruction; its wording is not part of this model. */
  const PersonaInstruction: string := "<persona instruction>"

  const SystemTurn: ChatMessage := ChatMessage(System, Text(PersonaInstruction))

  /** A user turn showing one frame as a JPEG data URL. */
  function ImageTurn(imgBase64: string): ChatMessage
  {
    ChatMessage(User, Parts([ImageUrl(FrameCapture.JpegDataUrl(imgBase64))]))
  }

  function ReplyTurn(message: string): ChatMessage
  {
    ChatMessage(Assistant, Text(message))
  }

  /** The pairs of turns for `items`, oldest first: item k's image at 2k,
      its message at 2k + 1. */
  function Turns(items: seq<HistoryItem>): (ms: seq<ChatMessage>)
    ensures |ms| == 2 * |items|
    ensures forall k :: 0 <= k < |items| ==>
      ms[2 * k] == ImageTurn(items[k].imgBase64) && ms[2 * k + 1] == ReplyTurn(items[k].message)
  {
    if items == [] then []
    else
      var last := items[|items| - 1];
      Turns(items[..|items| - 1]) + [ImageTurn(last.imgBase64), ReplyTurn(last.message)]
  }

  /** The messages sent for `history` and the new frame. */
  function Messages(history: seq<HistoryItem>, newImgBase64: string): (ms: seq<ChatMessage>)
    ensures |ms| == 2 + 2 * Min(|history|, HistoryLength)
    ensures ms[0] == SystemTurn && ms[0].role == System
    ensures ms[|ms| - 1] == ImageTurn(newImgBase64)
    ensures ms[|ms| - 1].content.parts[0].url == "data:image/jpeg;base64," + newImgBase64
  {
    [SystemTurn] + Turns(Recent(history)) + [ImageTurn(newImgBase64)]
  }

  /** Between the system turn and the new frame, the prompt alternates: the
      image of the k-th replayed item (oldest first), then its message; the
      replayed items are the newest min(|history|, 2). */
  lemma MessagesReplayNewest(history: seq<HistoryItem>, newImgBase64: string, k: nat)
    requires k < Min(|history|, HistoryLength)
    ensures var ms := Messages(history, newImgBase64);
      var item := history[|history| - Min(|history|, HistoryLength) + k];
      ms[1 + 2 * k] == ImageTurn(item.imgBase64) && ms[1 + 2 * k].role == User &&
      ms[2 + 2 * k] == ReplyTurn(item.message) && ms[2 + 2 * k].role == Assistant
  {
    var recent := Recent(history);
    var turns := Turns(recent);
    var ms := Messages(history, newImgBase64);
    assert ms == [SystemTurn] + turns + [ImageTurn(newImgBase64)];
    NewestIndex(history, HistoryLength, k);
    assert ms[1 + 2 * k] == turns[2 * k];
    assert ms[2 + 2 * k] == turns[2 * k + 1];
  }

  /** SendMessage's push loop: the system turn, then two pushes per replayed
      item, then the new frame. */
  method BuildMessages(history: seq<HistoryItem>, newImgBase64: string) returns (messages: seq<ChatMessage>)
    ensures messages == Messages(history, newImgBase64)
  {
    messages := [SystemTurn];
    var recent := Recent(history);
    for k := 0 to |recent|
      invariant messages == [SystemTurn] + Turns(recent[..k])
    {
      assert recent[..k + 1][..k] == recent[..k];
      messages := messages + [ImageTurn(recent[k].imgBase64), ReplyTurn(recent[k].message)];
    }
    assert recent[..|recent|] == recent;
    messages := messages + [ImageTurn(newImgBase64)];
  }
}
