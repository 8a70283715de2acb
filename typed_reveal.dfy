/** The typed reveal of typeMessage (src/App.tsx): the text shown grows from
    "" one character at a time to the whole message, over 5000 ms, and is
    then held for 5000 ms. */
module TypedReveal {

  /** Total time of the per-character delays, when there are characters. */
  const RevealDuration: real := 5000.0

  /** The hold after the whole message is shown. */
  const HoldDuration: real := 5000.0

  /** The successive values of the displayed text during one reveal. */
  function RevealTrace(message: string): (trace: seq<string>)
    ensures |trace| == |message| + 1
    ensures forall i :: 0 <= i <= |message| ==> trace[i] == message[..i]
  {
    if message == [] then [[]]
    else RevealTrace(message[..|message| - 1]) + [message]
  }

  /** The reveal starts empty, ends on the message, and each step adds the
      next character of the message. */
  lemma RevealSteps(message: string)
    ensures RevealTrace(message)[0] == ""
    ensures RevealTrace(message)[|message|] == message
    ensures forall i :: 0 <= i < |message| ==>
      RevealTrace(message)[i + 1] == RevealTrace(message)[i] + [message[i]]
  {
    var trace := RevealTrace(message);
    assert trace[0] == message[..0];
    assert trace[|message|] == message[..|message|];
    forall i | 0 <= i < |message|
      ensures trace[i + 1] == trace[i] + [message[i]]
    {
      RevealStep(message, i);
    }
  }

  lemma RevealStep(message: string, i: nat)
    requires i < |message|
    ensures RevealTrace(message)[i + 1] == RevealTrace(message)[i] + [message[i]]
  {
    var trace := RevealTrace(message);
    assert trace[i + 1] == message[..i + 1];
    assert trace[i] == message[..i];
    TakeOneMore(message, i);
  }

  lemma TakeOneMore<T>(s: seq<T>, i: nat)
    requires i < |s|
    ensures s[..i + 1] == s[..i] + [s[i]]
  {
  }

  lemma RevealAbc()
    ensures RevealTrace("abc") == ["", "a", "ab", "abc"]
  {
    var trace := RevealTrace("abc");
    assert trace[0] == "abc"[..0] == "";
    assert trace[1] == "abc"[..1] == "a";
    assert trace[2] == "abc"[..2] == "ab";
    assert trace[3] == "abc"[..3] == "abc";
  }

  /** The texts shown by revealing each message in turn. */
  function Traces(messages: seq<string>): seq<string>
  {
    if messages == [] then []
    else Traces(messages[..|messages| - 1]) + RevealTrace(messages[|messages| - 1])
  }

  /** `n` copies of `x`. */
  function Repeat(x: real, n: nat): (xs: seq<real>)
    ensures |xs| == n
    ensures forall i :: 0 <= i < n ==> xs[i] == x
  {
    if n == 0 then [] else Repeat(x, n - 1) + [x]
  }

  /** The delays one reveal waits, in order: RevealDuration / |message|
      after each character, then the hold. An empty message computes no
      interval and only holds. */
  function DelayTrace(message: string): (delays: seq<real>)
    ensures |delays| == |message| + 1
    ensures delays[|message|] == HoldDuration
  {
    if message == [] then [HoldDuration]
    else Repeat(RevealDuration / (|message| as real), |message|) + [HoldDuration]
  }

  /** The delays of revealing each message in turn. */
  function DelayTraces(messages: seq<string>): seq<real>
  {
    if messages == [] then []
    else DelayTraces(messages[..|messages| - 1]) + DelayTrace(messages[|messages| - 1])
  }

  function Sum(xs: seq<real>): real
  {
    if xs == [] then 0.0 else Sum(xs[..|xs| - 1]) + xs[|xs| - 1]
  }

  lemma {:induction false} SumRepeat(x: real, n: nat)
    ensures Sum(Repeat(x, n)) == (n as real) * x
  {
    if n > 0 {
      SumRepeat(x, n - 1);
      assert Repeat(x, n)[..n - 1] == Repeat(x, n - 1);
      assert Sum(Repeat(x, n)) == Sum(Repeat(x, n - 1)) + x;
      assert ((n - 1) as real) * x + x == (n as real) * x;
    }
  }

  lemma {:induction false} SumAppend(xs: seq<real>, ys: seq<real>)
    ensures Sum(xs + ys) == Sum(xs) + Sum(ys)
    decreases |ys|
  {
    if ys == [] {
      assert xs + ys == xs;
    } else {
      var init := ys[..|ys| - 1];
      var all := xs + ys;
      assert all[..|all| - 1] == xs + init;
      assert all[|all| - 1] == ys[|ys| - 1];
      SumAppend(xs, init);
      assert Sum(all) == Sum(xs + init) + ys[|ys| - 1];
      assert Sum(ys) == Sum(init) + ys[|ys| - 1];
    }
  }

  /** However long the message, the characters take RevealDuration in all
      (none for an empty message), and the hold follows. */
  lemma RevealTimeIsFixed(message: string)
    ensures Sum(DelayTrace(message)) == (if message == [] then 0.0 else RevealDuration) + HoldDuration
  {
    if message == [] {
      assert Sum([HoldDuration]) == Sum([]) + HoldDuration;
    } else {
      var n := |message| as real;
      var step := RevealDuration / n;
      SumRepeat(step, |message|);
      SumAppend(Repeat(step, |message|), [HoldDuration]);
      assert Sum([HoldDuration]) == Sum([]) + HoldDuration;
      SpreadEvenly(|message|);
    }
  }

  /** n equal shares of RevealDuration add back up to it. */
  lemma SpreadEvenly(n: nat)
    requires n > 0
    ensures (n as real) * (RevealDuration / (n as real)) == RevealDuration
  {
  }

  lemma TracesAppend(messages: seq<string>, message: string)
    ensures Traces(messages + [message]) == Traces(messages) + RevealTrace(message)
    ensures DelayTraces(messages + [message]) == DelayTraces(messages) + DelayTrace(message)
  {
    assert (messages + [message])[..|messages|] == messages;
  }
}
