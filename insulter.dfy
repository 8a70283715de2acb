/** The request and the loop of src/App.tsx: requestInsultFromVideo,
    SendMessage's network step, typeMessage and runLoop, over the state the
    App component keeps (the history ref, the typed text, the error and the
    running flag). */
module Insulter {
  import opened Optional
  import opened FrameCapture
  import opened History
  import opened Prompt
  import opened ChatResponse
  import opened TypedReveal

  const ApiUrl: string := "/api/v1/chat/completions"
  const ModelId: string := "qwen/qwen2.5-vl-7b"

  const NoVideoMessage: string := "No video element found."
  const CaptureFailedMessage: string := "Failed to capture image."
  const SendFailedMessage: string := "Failed to send image."

  /** What the first cycle reveals, before any request has answered. */
  const Placeholder: string := "The AI Overloard is pondering your existence..."

  /** The POST of `{model, messages}` to the chat endpoint. */
  datatype ChatRequest = ChatRequest(url: string, model: string, messages: seq<ChatMessage>)

  /** The endpoint, seen from the app: how it answers a request. */
  type ChatServer = ChatRequest -> Reply

  /** What SendMessage resolves to (or that it throws) for a history, a new
      frame and the endpoint. */
  function SendOutcome(history: seq<HistoryItem>, newImgBase64: string, server: ChatServer): (r: SendResult)
    ensures var reply := server(ChatRequest(ApiUrl, ModelId, Messages(history, newImgBase64)));
      r.SendThrew? <==> reply.Threw? || reply.body.JNull?
    ensures r.Sent? ==> r.message != ""
  {
    ReadReply(server(ChatRequest(ApiUrl, ModelId, Messages(history, newImgBase64))))
  }

  /** SendMessage: the request carries exactly the prompt for `history` and
      the new frame, and the reply is read as ReadReply says. */
  method SendMessage(history: seq<HistoryItem>, newImgBase64: string, server: ChatServer)
    returns (r: SendResult)
    ensures r == SendOutcome(history, newImgBase64, server)
  {
    var messages := BuildMessages(history, newImgBase64);
    r := ReadReply(server(ChatRequest(ApiUrl, ModelId, messages)));
  }

  /** What requestInsultFromVideo returns, and the history it passes to
      setHistory, if it calls it. */
  datatype Outcome = Outcome(message: string, update: Option<seq<HistoryItem>>)

  /** The decision procedure of requestInsultFromVideo: every outcome has a
      displayable message, and an update never exceeds the bound. */
  function RequestOutcome(history: seq<HistoryItem>, video: Option<VideoFrame>, server: ChatServer): (o: Outcome)
    ensures o.message != ""
    ensures o.update.Some? ==> |o.update.value| <= HistoryLength
  {
    match video
    case None => Outcome(NoVideoMessage, None)
    case Some(v) =>
      var img := ResizeAndEncode(v);
      if !Truthy(img) then Outcome(CaptureFailedMessage, None)
      else
        match SendOutcome(history, img.value, server)
        case SendThrew => Outcome(SendFailedMessage, None)
        case Sent(m) => Outcome(m, Some(AppendBounded(history, HistoryItem(m, img.value))))
  }

  /** The branches of the request: a missing video, a falsy capture and a
      thrown send each give their fixed message and leave the history
      alone; a successful send returns its message and evicts FIFO, keeping
      the newest items with the new (message, frame) pair last. */
  lemma RequestBranches(history: seq<HistoryItem>, video: Option<VideoFrame>, server: ChatServer)
    ensures var o := RequestOutcome(history, video, server);
      video.None? ==> o == Outcome(NoVideoMessage, None)
    ensures var o := RequestOutcome(history, video, server);
      video.Some? && !Truthy(ResizeAndEncode(video.value)) ==> o == Outcome(CaptureFailedMessage, None)
    ensures var o := RequestOutcome(history, video, server);
      video.Some? && Truthy(ResizeAndEncode(video.value)) ==>
      var img := ResizeAndEncode(video.value).value;
      match SendOutcome(history, img, server)
      case SendThrew => o == Outcome(SendFailedMessage, None)
      case Sent(m) =>
        o.message == m && o.update == Some(Newest(history + [HistoryItem(m, img)], HistoryLength))
  {
    if video.Some? && Truthy(ResizeAndEncode(video.value)) {
      var img := ResizeAndEncode(video.value).value;
      if SendOutcome(history, img, server).Sent? {
        AppendIsNewestWindow(history, HistoryItem(SendOutcome(history, img, server).message, img));
      }
    }
  }

  /** From an empty history, a captured frame and a reply whose content
      is `text` (say "Nice hat.") give the message `text` and a one-item
      history holding it with the frame. */
  lemma FirstSuccessfulRequest(video: VideoFrame, img: string, text: string,
                                others: seq<Option<Choice>>, server: ChatServer)
    requires ResizeAndEncode(video) == Some(img) && img != "" && text != ""
    requires server(ChatRequest(ApiUrl, ModelId, Messages([], img))) ==
      Responded(JValue(Some([Some(Choice(Some(ChoiceMessage(Some(text)))))] + others)))
    ensures RequestOutcome([], Some(video), server) == Outcome(text, Some([HistoryItem(text, img)]))
  {
    var item := HistoryItem(text, img);
    var reply := server(ChatRequest(ApiUrl, ModelId, Messages([], img)));
    WellFormedReply(reply, text, others);
    assert SendOutcome([], img, server) == Sent(text);
    assert AppendBounded([], item) == [item];
  }

  /** The history after a request: replaced only when setHistory was called. */
  function Apply(history: seq<HistoryItem>, o: Outcome): (h: seq<HistoryItem>)
    ensures o.update.None? ==> h == history
    ensures o.update.Some? ==> o.update == Some(h)
  {
    if o.update.Some? then o.update.value else history
  }

  /** The history changes exactly when the request succeeded; a failure
      returns one of the three fixed messages. */
  lemma RequestUpdatesOnlyOnSuccess(history: seq<HistoryItem>, video: Option<VideoFrame>, server: ChatServer)
    ensures var o := RequestOutcome(history, video, server);
      o.update.None? ==>
        o.message == NoVideoMessage || o.message == CaptureFailedMessage || o.message == SendFailedMessage
    ensures var o := RequestOutcome(history, video, server);
      o.update.Some? <==>
        video.Some? && Truthy(ResizeAndEncode(video.value)) &&
        SendOutcome(history, ResizeAndEncode(video.value).value, server).Sent?
  {
    var o := RequestOutcome(history, video, server);
    match video
    case None =>
      assert o == Outcome(NoVideoMessage, None);
    case Some(v) =>
      var img := ResizeAndEncode(v);
      if !Truthy(img) {
        assert o == Outcome(CaptureFailedMessage, None);
      } else {
        var sent := SendOutcome(history, img.value, server);
        if sent.SendThrew? {
          assert o == Outcome(SendFailedMessage, None);
        } else {
          assert o.update == Some(AppendBounded(history, HistoryItem(sent.message, img.value)));
        }
      }
  }

  /** One cycle's inputs: whether the loop had been cancelled by the time
      it tested its condition, the frame the video shows, and how the
      endpoint answers. */
  datatype Cycle = Cycle(cancelled: bool, frame: VideoFrame, server: ChatServer)

  /** The observable course of a run: the messages revealed and the request
      results, cycle by cycle, and the history at the end. */
  datatype LoopTrace = LoopTrace(revealed: seq<string>, results: seq<string>, history: seq<HistoryItem>)

  /** The loop of runLoop, sequentially: each cycle requests with the
      current history and reveals the previous cycle's result (`insult`). */
  function LoopRun(running: bool, history: seq<HistoryItem>, insult: string, env: seq<Cycle>): (t: LoopTrace)
    ensures |t.revealed| == |t.results| <= |env|
    ensures !running ==> t.results == [] && t.history == history
    decreases |env|
  {
    if !running || env == [] || env[0].cancelled then LoopTrace([], [], history)
    else
      var o := RequestOutcome(history, Some(env[0].frame), env[0].server);
      var rest := LoopRun(running, Apply(history, o), o.message, env[1..]);
      LoopTrace([insult] + rest.revealed, [o.message] + rest.results, rest.history)
  }

  /** The hand-off of `insult`: the first cycle reveals the message the run
      started with (the placeholder), and cycle k + 1 reveals cycle k's
      request result. */
  lemma {:induction false} LoopHandOff(running: bool, history: seq<HistoryItem>, insult: string, env: seq<Cycle>)
    ensures var t := LoopRun(running, history, insult, env);
      |t.revealed| > 0 ==> t.revealed[0] == insult
    ensures var t := LoopRun(running, history, insult, env);
      forall k :: 0 <= k < |t.results| - 1 ==> t.revealed[k + 1] == t.results[k]
    decreases |env|
  {
    if running && env != [] && !env[0].cancelled {
      var o := RequestOutcome(history, Some(env[0].frame), env[0].server);
      var rest := LoopRun(running, Apply(history, o), o.message, env[1..]);
      LoopHandOff(running, Apply(history, o), o.message, env[1..]);
      var t := LoopRun(running, history, insult, env);
      forall k | 0 <= k < |t.results| - 1
        ensures t.revealed[k + 1] == t.results[k]
      {
        if k > 0 {
          assert t.revealed[k + 1] == rest.revealed[k] == rest.results[k - 1];
        }
      }
    }
  }

  /** Cycles run exactly while nobody has cancelled: every cycle that ran
      saw `cancelled` false, and the first one that did not run (if the
      inputs go on) saw it true. */
  lemma LoopStopsAtCancel(running: bool, history: seq<HistoryItem>, insult: string, env: seq<Cycle>)
    ensures var t := LoopRun(running, history, insult, env);
      forall j :: 0 <= j < |t.results| ==> !env[j].cancelled
    ensures var t := LoopRun(running, history, insult, env);
      running && |t.results| < |env| ==> env[|t.results|].cancelled
  {
    LoopRanUncancelled(running, history, insult, env);
    LoopStoppedAtCancel(running, history, insult, env);
  }

  lemma {:induction false} LoopRanUncancelled(running: bool, history: seq<HistoryItem>, insult: string, env: seq<Cycle>)
    ensures forall j :: 0 <= j < |LoopRun(running, history, insult, env).results| ==> !env[j].cancelled
    decreases |env|
  {
    if running && env != [] && !env[0].cancelled {
      var o := RequestOutcome(history, Some(env[0].frame), env[0].server);
      var n := |LoopRun(running, Apply(history, o), o.message, env[1..]).results|;
      LoopRanUncancelled(running, Apply(history, o), o.message, env[1..]);
      assert |LoopRun(running, history, insult, env).results| == n + 1;
      forall j | 1 <= j < n + 1
        ensures !env[j].cancelled
      {
        assert env[j] == env[1..][j - 1];
      }
    }
  }

  lemma {:induction false} LoopStoppedAtCancel(running: bool, history: seq<HistoryItem>, insult: string, env: seq<Cycle>)
    ensures var n := |LoopRun(running, history, insult, env).results|;
      running && n < |env| ==> env[n].cancelled
    decreases |env|
  {
    if running && env != [] && !env[0].cancelled {
      var o := RequestOutcome(history, Some(env[0].frame), env[0].server);
      var n := |LoopRun(running, Apply(history, o), o.message, env[1..]).results|;
      LoopStoppedAtCancel(running, Apply(history, o), o.message, env[1..]);
      assert |LoopRun(running, history, insult, env).results| == n + 1;
      if n + 1 < |env| {
        assert env[n + 1] == env[1..][n];
      }
    }
  }

  /** One cycle of a run that goes on: it reveals `insult` and requests,
      and the rest of the run starts from the new history and the result. */
  lemma LoopRunStep(whole: LoopTrace, done: seq<string>, running: bool,
                    history: seq<HistoryItem>, insult: string, env: seq<Cycle>)
    requires running && env != [] && !env[0].cancelled
    requires whole.revealed == done + LoopRun(running, history, insult, env).revealed
    requires whole.history == LoopRun(running, history, insult, env).history
    ensures var o := RequestOutcome(history, Some(env[0].frame), env[0].server);
      var rest := LoopRun(running, Apply(history, o), o.message, env[1..]);
      whole.revealed == (done + [insult]) + rest.revealed && whole.history == rest.history
  {
  }

  /** A run that does not go on has revealed everything and left the
      history where it is. */
  lemma LoopRunEnd(whole: LoopTrace, done: seq<string>, running: bool,
                   history: seq<HistoryItem>, insult: string, env: seq<Cycle>)
    requires !(running && env != [] && !env[0].cancelled)
    requires whole.revealed == done + LoopRun(running, history, insult, env).revealed
    requires whole.history == LoopRun(running, history, insult, env).history
    ensures whole.revealed == done && whole.history == history
  {
    assert done + [] == done;
  }

  /** The last element: the message a run revealed last. */
  function Last<T>(s: seq<T>): T
    requires s != []
  {
    s[|s| - 1]
  }

  lemma LastSnoc<T>(s: seq<T>, x: T)
    ensures Last(s + [x]) == x
  {
  }

  /** A run never takes the history past its bound. */
  lemma {:induction false} LoopKeepsHistoryBounded(running: bool, history: seq<HistoryItem>, insult: string, env: seq<Cycle>)
    requires |history| <= HistoryLength
    ensures |LoopRun(running, history, insult, env).history| <= HistoryLength
    decreases |env|
  {
    if running && env != [] && !env[0].cancelled {
      var o := RequestOutcome(history, Some(env[0].frame), env[0].server);
      LoopKeepsHistoryBounded(running, Apply(history, o), o.message, env[1..]);
    }
  }

  /** The (message, frame) pairs of the cycles of a run whose request
      succeeded, oldest first: what the run offers the history. */
  function LoopItems(running: bool, history: seq<HistoryItem>, insult: string, env: seq<Cycle>): (items: seq<HistoryItem>)
    ensures |items| <= |LoopRun(running, history, insult, env).results|
    decreases |env|
  {
    if !running || env == [] || env[0].cancelled then []
    else
      var o := RequestOutcome(history, Some(env[0].frame), env[0].server);
      var img := ResizeAndEncode(env[0].frame);
      var rest := LoopItems(running, Apply(history, o), o.message, env[1..]);
      if o.update.Some? && img.Some? then [HistoryItem(o.message, img.value)] + rest else rest
  }

  /** A run from a bounded history (the app's starts empty) ends with the
      newest HistoryLength items of that history followed by every
      successful (message, frame) pair. */
  lemma {:induction false} LoopHistoryIsNewest(running: bool, history: seq<HistoryItem>, insult: string, env: seq<Cycle>)
    requires |history| <= HistoryLength
    ensures LoopRun(running, history, insult, env).history ==
      Newest(history + LoopItems(running, history, insult, env), HistoryLength)
    decreases |env|
  {
    if !running || env == [] || env[0].cancelled {
      assert history + [] == history;
    } else {
      var video := Some(env[0].frame);
      var o := RequestOutcome(history, video, env[0].server);
      var img := ResizeAndEncode(env[0].frame);
      var next := Apply(history, o);
      var items := LoopItems(running, next, o.message, env[1..]);
      LoopHistoryIsNewest(running, next, o.message, env[1..]);
      RequestBranches(history, video, env[0].server);
      RequestUpdatesOnlyOnSuccess(history, video, env[0].server);
      if o.update.Some? {
        var item := HistoryItem(o.message, img.value);
        assert next == Newest(history + [item], HistoryLength);
        NewestOfNewest(history + [item], items, HistoryLength);
        AppendAssoc(history, [item], items);
      } else {
        assert next == history;
      }
    }
  }

  /** Every message the loop reveals after the placeholder is non-empty, so
      the per-character delay never divides by zero. */
  lemma {:induction false} LoopRevealsNonEmpty(running: bool, history: seq<HistoryItem>, insult: string, env: seq<Cycle>)
    requires insult != ""
    ensures forall k :: 0 <= k < |LoopRun(running, history, insult, env).revealed| ==>
      LoopRun(running, history, insult, env).revealed[k] != ""
    decreases |env|
  {
    if running && env != [] && !env[0].cancelled {
      var o := RequestOutcome(history, Some(env[0].frame), env[0].server);
      LoopRevealsNonEmpty(running, Apply(history, o), o.message, env[1..]);
    }
  }

  /** The display logs after one more reveal. */
  lemma ShownStep(shown: seq<string>, delays: seq<real>, done: seq<string>, insult: string)
    ensures (shown + Traces(done)) + RevealTrace(insult) == shown + Traces(done + [insult])
    ensures (delays + DelayTraces(done)) + DelayTrace(insult) == delays + DelayTraces(done + [insult])
  {
    TracesAppend(done, insult);
    AppendAssoc(shown, Traces(done), RevealTrace(insult));
    AppendAssoc(delays, DelayTraces(done), DelayTrace(insult));
  }

  lemma AppendAssoc<T>(a: seq<T>, b: seq<T>, c: seq<T>)
    ensures (a + b) + c == a + (b + c)
  {
  }

  class App {
    var history: seq<HistoryItem>
    var typedInsult: string
    var error: Option<string>
    var isRunning: bool
    /** Every value the displayed text has taken, in order. */
    ghost var shown: seq<string>
    /** Every delay awaited, in order, in milliseconds. */
    ghost var delays: seq<real>

    constructor ()
      ensures history == [] && typedInsult == "" && error == None && !isRunning
      ensures shown == [""] && delays == []
    {
      history := [];
      typedInsult := "";
      error := None;
      isRunning := false;
      shown := [""];
      delays := [];
    }

    /** requestInsultFromVideo, with setHistory writing the history ref. */
    method RequestInsultFromVideo(video: Option<VideoFrame>, server: ChatServer) returns (message: string)
      modifies this`history
      ensures var o := RequestOutcome(old(history), video, server);
        message == o.message && history == Apply(old(history), o)
    {
      if video.None? {
        return NoVideoMessage;
      }
      var img := ResizeAndEncode(video.value);
      if !Truthy(img) {
        return CaptureFailedMessage;
      }
      var sent := SendMessage(history, img.value, server);
      match sent
      case SendThrew =>
        message := SendFailedMessage;
      case Sent(m) =>
        history := AppendBounded(history, HistoryItem(m, img.value));
        message := m;
    }

    /** typeMessage: clear the text, then add one character per step, each
        followed by a delay of RevealDuration / |message|, then hold. */
    method TypeMessage(message: string)
      modifies this`typedInsult, this`shown, this`delays
      ensures typedInsult == message
      ensures shown == old(shown) + RevealTrace(message)
      ensures delays == old(delays) + DelayTrace(message)
    {
      typedInsult := "";
      shown := shown + [typedInsult];
      var i := 0;
      while i < |message|
        invariant 0 <= i <= |message|
        invariant typedInsult == message[..i]
        invariant shown == old(shown) + RevealTrace(message)[..i + 1]
        invariant |message| > 0 ==> delays == old(delays) + Repeat(RevealDuration / (|message| as real), i)
        invariant |message| == 0 ==> delays == old(delays)
      {
        assert message[..i + 1] == typedInsult + [message[i]];
        assert RevealTrace(message)[..i + 2] == RevealTrace(message)[..i + 1] + [message[..i + 1]];
        typedInsult := typedInsult + [message[i]];
        shown := shown + [typedInsult];
        delays := delays + [RevealDuration / (|message| as real)];
        i := i + 1;
      }
      assert RevealTrace(message)[..|message| + 1] == RevealTrace(message);
      delays := delays + [HoldDuration];
    }

    /** The body of runLoop's loop: clear the error, then request with the
        current history and reveal `insult` (the two run side by side in the
        app; they touch disjoint state, so their order does not matter). */
    method RunCycle(insult: string, cycle: Cycle) returns (newInsult: string)
      modifies this`history, this`typedInsult, this`shown, this`delays, this`error
      ensures var o := RequestOutcome(old(history), Some(cycle.frame), cycle.server);
        newInsult == o.message && history == Apply(old(history), o)
      ensures error == None && typedInsult == insult
      ensures shown == old(shown) + RevealTrace(insult)
      ensures delays == old(delays) + DelayTrace(insult)
    {
      error := None;
      newInsult := RequestInsultFromVideo(Some(cycle.frame), cycle.server);
      TypeMessage(insult);
    }

    /** runLoop: each cycle clears the error, requests with the current
        history and reveals the previous cycle's result; it stops once the
        app is not running or the run was cancelled (or, in this model, once
        the given cycles run out). */
    method RunLoop(videoPresent: bool, env: seq<Cycle>)
      modifies this
      ensures !videoPresent ==>
        error == Some(NoVideoMessage) && !isRunning && history == old(history) &&
        typedInsult == old(typedInsult) && shown == old(shown) && delays == old(delays)
      ensures videoPresent ==>
        var t := LoopRun(old(isRunning), old(history), Placeholder, env);
        isRunning == old(isRunning) && history == t.history &&
        shown == old(shown) + Traces(t.revealed) &&
        delays == old(delays) + DelayTraces(t.revealed) &&
        (t.revealed == [] ==> typedInsult == old(typedInsult) && error == old(error)) &&
        (t.revealed != [] ==> typedInsult == Last(t.revealed) && error == None)
    {
      if !videoPresent {
        error := Some(NoVideoMessage);
        isRunning := false;
        return;
      }
      ghost var t := RunCycles(Placeholder, env);
    }

    /** The while loop of runLoop, from the placeholder: cycles run while the
        app is running and nobody has cancelled. */
    method RunCycles(first: string, env: seq<Cycle>) returns (ghost t: LoopTrace)
      modifies this`history, this`typedInsult, this`error, this`shown, this`delays
      ensures t == LoopRun(isRunning, old(history), first, env)
      ensures history == t.history
      ensures shown == old(shown) + Traces(t.revealed)
      ensures delays == old(delays) + DelayTraces(t.revealed)
      ensures t.revealed != [] ==> typedInsult == Last(t.revealed) && error == None
      ensures t.revealed == [] ==> typedInsult == old(typedInsult) && error == old(error)
    {
      var insult := first;
      var rest := env;
      ghost var whole := LoopRun(isRunning, history, first, env);
      ghost var done: seq<string> := [];
      while rest != [] && isRunning && !rest[0].cancelled
        invariant whole.revealed == done + LoopRun(isRunning, history, insult, rest).revealed
        invariant whole.history == LoopRun(isRunning, history, insult, rest).history
        invariant shown == old(shown) + Traces(done)
        invariant delays == old(delays) + DelayTraces(done)
        invariant done != [] ==> typedInsult == Last(done) && error == None
        invariant done == [] ==> typedInsult == old(typedInsult) && error == old(error)
        decreases |rest|
      {
        LoopRunStep(whole, done, isRunning, history, insult, rest);
        ShownStep(old(shown), old(delays), done, insult);
        var newInsult := RunCycle(insult, rest[0]);
        LastSnoc(done, insult);
        done := done + [insult];
        insult := newInsult;
        rest := rest[1..];
      }
      LoopRunEnd(whole, done, isRunning, history, insult, rest);
      t := whole;
    }
  }
}
