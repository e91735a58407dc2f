/** The Telegram side of the hook: the throttle that gates `sendTelegramMessage`, the photo
    request it builds, and one step of the chat-id poll. Timers become an explicit clock in
    milliseconds; network calls become their replies. */
module Telegram {
  import opened Wrappers
  import opened Seqs
  import DataUrl
  import Config

  /** The hook state `sendTelegramMessage` reads. */
  datatype Settings = Settings(enabled: bool, botToken: string, chatId: string, debounceMs: int)

  /** The hook's initial state: sending off, no credentials, a 5000 ms debounce. */
  const InitialSettings: Settings := Settings(false, "", "", 5000)

  /** The hook's debounce default agrees with the configured default. */
  lemma InitialDebounceIsDefault()
    ensures InitialSettings.debounceMs == Config.DEFAULT_DEBOUNCE_TIME_MS
    ensures InitialSettings.debounceMs >= 0
  {
  }

  /** `isThrottled`, on an explicit clock: set at admission and cleared by a timer when the
      clock reaches `cooldownUntil`. One gate serves every caller of the hook. */
  datatype Gate = Gate(cooldownUntil: Option<int>)

  const Open: Gate := Gate(None)

  predicate Throttled(g: Gate, now: int) {
    g.cooldownUntil.Some? && now < g.cooldownUntil.value
  }

  const TWO_TO_31: int := 0x8000_0000
  const TWO_TO_32: int := 0x1_0000_0000

  /** The Web IDL `long` conversion of an integral number: reduced modulo 2^32 into the
      signed 32-bit range. */
  function ToInt32(x: int): (y: int)
    ensures -TWO_TO_31 <= y < TWO_TO_31
    ensures (y - x) % TWO_TO_32 == 0
    ensures -TWO_TO_31 <= x < TWO_TO_31 ==> y == x
  {
    var m := x % TWO_TO_32;
    if m >= TWO_TO_31 then m - TWO_TO_32 else m
  }

  /** The delay after which `setTimeout` runs its callback: the delay argument converted to
      a 32-bit `long`, and a negative result taken as 0 (section 8.6 of the HTML Standard,
      "timer initialisation steps"). */
  function TimerDelay(ms: int): (d: nat)
    ensures d < TWO_TO_31
    ensures 0 <= ms < TWO_TO_31 ==> d == ms
    ensures -TWO_TO_31 <= ms < 0 ==> d == 0
    ensures d == 0 || (d - ms) % TWO_TO_32 == 0
  {
    var t := ToInt32(ms);
    if t < 0 then 0 else t
  }

  /** A debounce typed in at 2^31 ms or more does not throttle as typed: 2^31 wraps to a
      negative delay and runs the release at once, 2^32 + 5000 waits only 5 seconds. */
  lemma OversizedDebounceWraps()
    ensures TimerDelay(TWO_TO_31) == 0
    ensures TimerDelay(TWO_TO_32 + 5000) == 5000
    ensures TimerDelay(TWO_TO_31 - 1) == TWO_TO_31 - 1
  {
    assert ToInt32(TWO_TO_31) == -TWO_TO_31;
    assert ToInt32(TWO_TO_32 + 5000) == 5000;
  }

  datatype Verdict =
    | Suppressed   // the throttle is set
    | Disabled     // sending is off, or the token or chat id is empty
    | Admitted

  datatype Decision = Decision(verdict: Verdict, gate: Gate)

  /** The two guards of `sendTelegramMessage`, then the throttle and its release timer. */
  function Admit(g: Gate, now: int, s: Settings): (d: Decision)
    ensures Throttled(g, now) ==> d == Decision(Suppressed, g)
    ensures d.verdict != Admitted ==> d.gate == g
    ensures d.verdict == Disabled <==> !Throttled(g, now) && (!s.enabled || s.botToken == [] || s.chatId == [])
    ensures d.verdict == Admitted <==> !Throttled(g, now) && s.enabled && s.botToken != [] && s.chatId != []
    ensures d.verdict == Admitted ==> d.gate == Gate(Some(now + TimerDelay(s.debounceMs)))
    ensures d.verdict == Admitted ==>
      forall t :: t >= now ==> (Throttled(d.gate, t) <==> t < now + TimerDelay(s.debounceMs))
  {
    if Throttled(g, now) then Decision(Suppressed, g)
    else if !s.enabled || s.botToken == [] || s.chatId == [] then Decision(Disabled, g)
    else Decision(Admitted, Gate(Some(now + TimerDelay(s.debounceMs))))
  }

  /** One call of `sendTelegramMessage`: when, and with which hook state. */
  datatype Call = Call(at: int, settings: Settings)

  /** An admitted call: its time and the release delay in effect at that moment. */
  datatype Send = Send(at: int, delay: nat)

  predicate Chronological(calls: seq<Call>) {
    forall i, j :: 0 <= i < j < |calls| ==> calls[i].at <= calls[j].at
  }

  /** A sequence of calls against one gate: the final gate and the admitted calls. */
  function Replay(g: Gate, calls: seq<Call>): (r: (Gate, seq<Send>))
    ensures |r.1| <= |calls|
    ensures r.1 == [] ==> r.0 == g
    ensures r.1 != [] ==> r.0 == Gate(Some(r.1[|r.1| - 1].at + r.1[|r.1| - 1].delay))
    decreases |calls|
  {
    if calls == [] then (g, [])
    else
      var d := Admit(g, calls[0].at, calls[0].settings);
      var rest := Replay(d.gate, calls[1..]);
      var head := if d.verdict == Admitted then [Send(calls[0].at, TimerDelay(calls[0].settings.debounceMs))] else [];
      assert rest.1 != [] ==> (head + rest.1)[|head + rest.1| - 1] == rest.1[|rest.1| - 1];
      (rest.0, head + rest.1)
  }

  /** While a cooldown is pending, nothing is admitted before it ends. */
  lemma {:induction false} SendsAfterCooldown(g: Gate, calls: seq<Call>)
    requires Chronological(calls)
    ensures g.cooldownUntil.Some? ==>
      forall k :: 0 <= k < |Replay(g, calls).1| ==> Replay(g, calls).1[k].at >= g.cooldownUntil.value
    ensures forall k :: 0 <= k < |Replay(g, calls).1| ==> |calls| > 0 && Replay(g, calls).1[k].at >= calls[0].at
    decreases |calls|
  {
    if calls != [] {
      var d := Admit(g, calls[0].at, calls[0].settings);
      var tail := calls[1..];
      assert Chronological(tail);
      SendsAfterCooldown(d.gate, tail);
      var rest := Replay(d.gate, tail).1;
      var head := if d.verdict == Admitted then [Send(calls[0].at, TimerDelay(calls[0].settings.debounceMs))] else [];
      assert Replay(g, calls).1 == head + rest;
      forall k | 0 <= k < |rest|
        ensures rest[k].at >= calls[0].at
      {
        assert tail[0] == calls[1];
      }
      if d.verdict == Admitted {
        assert g.cooldownUntil.Some? ==> calls[0].at >= g.cooldownUntil.value;
      }
    } else {
      assert Replay(g, calls).1 == [];
    }
  }

  /** Each send is at least its own debounce before the next one. */
  predicate Spaced(sends: seq<Send>) {
    forall k :: 0 <= k < |sends| - 1 ==> sends[k + 1].at >= sends[k].at + sends[k].delay
  }

  /** Any two consecutive admitted sends are at least the earlier one's debounce apart,
      however often motion is reported in between. */
  lemma {:induction false} SendsSpaced(g: Gate, calls: seq<Call>)
    requires Chronological(calls)
    ensures Spaced(Replay(g, calls).1)
    decreases |calls|
  {
    if calls != [] {
      var d := Admit(g, calls[0].at, calls[0].settings);
      var tail := calls[1..];
      assert Chronological(tail);
      SendsSpaced(d.gate, tail);
      SendsAfterCooldown(d.gate, tail);
      var rest := Replay(d.gate, tail).1;
      var sends := Replay(g, calls).1;
      if d.verdict == Admitted {
        assert sends == [Send(calls[0].at, TimerDelay(calls[0].settings.debounceMs))] + rest;
        forall k | 0 <= k < |sends| - 1
          ensures sends[k + 1].at >= sends[k].at + sends[k].delay
        {
          if k > 0 {
            var j := k - 1;
            assert sends[k] == rest[j] && sends[k + 1] == rest[j + 1];
            assert rest[j + 1].at >= rest[j].at + rest[j].delay;
          } else {
            assert sends[1] == rest[0];
            assert d.gate.cooldownUntil == Some(calls[0].at + TimerDelay(calls[0].settings.debounceMs));
            assert rest[0].at >= d.gate.cooldownUntil.value;
          }
        }
      } else {
        assert sends == rest;
      }
    }
  }

  /** The scenario of two motion reports 300 ms apart under a 5000 ms debounce: only the first is sent. */
  lemma TwoReportsOneSend(token: string, chatId: string)
    requires token != [] && chatId != []
    ensures var s := Settings(true, token, chatId, 5000);
            Replay(Open, [Call(0, s), Call(300, s)]).1 == [Send(0, 5000)]
  {
    var s := Settings(true, token, chatId, 5000);
    var calls := [Call(0, s), Call(300, s)];
    assert calls[1..] == [Call(300, s)];
    assert calls[1..][1..] == [];
  }

  /** Reports every 500 ms from 0 to 2000 under a 1000 ms debounce are sent at 0, 1000 and 2000 only. */
  lemma SteadyReportsPaced(token: string, chatId: string)
    requires token != [] && chatId != []
    ensures var s := Settings(true, token, chatId, 1000);
            Replay(Open, [Call(0, s), Call(500, s), Call(1000, s), Call(1500, s), Call(2000, s)]).1
              == [Send(0, 1000), Send(1000, 1000), Send(2000, 1000)]
  {
    var s := Settings(true, token, chatId, 1000);
    var closed := Gate(Some(3000));
    var c4 := [Call(2000, s)];
    var c3 := [Call(1500, s)] + c4;
    var c2 := [Call(1000, s)] + c3;
    var c1 := [Call(500, s)] + c2;
    var c0 := [Call(0, s)] + c1;
    assert c0 == [Call(0, s), Call(500, s), Call(1000, s), Call(1500, s), Call(2000, s)];
    assert c4[1..] == [] && c3[1..] == c4 && c2[1..] == c3 && c1[1..] == c2 && c0[1..] == c1;
    assert Replay(closed, []) == (closed, []);
    assert c3[0] == Call(1500, s) && c2[0] == Call(1000, s) && c1[0] == Call(500, s) && c0[0] == Call(0, s);
    assert Admit(Gate(Some(2000)), 1500, s) == Decision(Suppressed, Gate(Some(2000)));
    assert Admit(Gate(Some(1000)), 1000, s) == Decision(Admitted, Gate(Some(2000)));
    assert Admit(Gate(Some(1000)), 500, s) == Decision(Suppressed, Gate(Some(1000)));
    assert Admit(Open, 0, s) == Decision(Admitted, Gate(Some(1000)));
    assert Replay(Gate(Some(2000)), c4).0 == closed;
    assert Replay(Gate(Some(2000)), c4).1 == [Send(2000, 1000)] + [] == [Send(2000, 1000)];
    assert Replay(Gate(Some(2000)), c3).0 == closed;
    assert Replay(Gate(Some(2000)), c3).1 == [] + [Send(2000, 1000)] == [Send(2000, 1000)];
    assert Replay(Gate(Some(1000)), c2).0 == closed;
    assert Replay(Gate(Some(1000)), c2).1 == [Send(1000, 1000)] + [Send(2000, 1000)] == [Send(1000, 1000), Send(2000, 1000)];
    assert Replay(Gate(Some(1000)), c1).1 == [] + [Send(1000, 1000), Send(2000, 1000)] == [Send(1000, 1000), Send(2000, 1000)];
    assert Replay(Open, c0).1 == [Send(0, 1000)] + [Send(1000, 1000), Send(2000, 1000)];
  }

  /** The multipart form posted to `sendPhoto`. */
  datatype Form = Form(chatId: string, photo: DataUrl.Blob, photoName: string, caption: string)

  datatype Request = Request(url: string, form: Form)

  const PHOTO_NAME: string := "motion.jpg"

  /** The caption: the fixed text followed by the formatted local time (formatting itself is
      an input). It starts with the configured message prefix and a space, and the time
      can be read back from what follows. */
  function Caption(timeText: string): (c: string)
    ensures |c| == |Config.MOTION_DETECTED_MESSAGE_PREFIX| + 1 + |timeText|
    ensures c[..|Config.MOTION_DETECTED_MESSAGE_PREFIX| + 1] == Config.MOTION_DETECTED_MESSAGE_PREFIX + " "
    ensures c[|Config.MOTION_DETECTED_MESSAGE_PREFIX| + 1..] == timeText
  {
    "Movement detected at " + timeText
  }

  const BOT_API: string := "https://api.telegram.org/bot"
  const SEND_PHOTO: string := "/sendPhoto"

  /** The Bot API endpoint for `sendPhoto`: the token sits between the API prefix and the
      method path, and can be cut back out. */
  function SendPhotoUrl(token: string): (u: string)
    ensures |u| == |BOT_API| + |token| + |SEND_PHOTO|
    ensures u[..|BOT_API|] == BOT_API && u[|u| - |SEND_PHOTO|..] == SEND_PHOTO
    ensures u[|BOT_API|..|u| - |SEND_PHOTO|] == token
  {
    "https://api.telegram.org/bot" + token + "/sendPhoto"
  }

  /** Two tokens that give the same endpoint are the same token: a request goes to the bot
      whose token was configured. */
  lemma SendPhotoUrlInjective(t1: string, t2: string)
    ensures SendPhotoUrl(t1) == SendPhotoUrl(t2) ==> t1 == t2
  {
  }

  /** What one call did: the gate afterwards, the verdict, and for an admitted call the
      request posted or the error raised while decoding the frame. */
  datatype Attempt = Attempt(gate: Gate, verdict: Verdict, request: Option<Result<Request, DataUrl.DecodeError>>)

  /** `sendTelegramMessage(frame)` at time `now`. The throttle is set before the frame is
      decoded, so a frame that fails to decode still starts a cooldown. */
  function SendTelegramMessage(g: Gate, now: int, s: Settings, frame: string, timeText: string,
                               atob: string -> Option<string>): (a: Attempt)
    ensures a.gate == Admit(g, now, s).gate && a.verdict == Admit(g, now, s).verdict
    ensures a.request.Some? <==> a.verdict == Admitted
    ensures a.request.Some? && a.request.value.Err? ==> DataUrl.ToBlob(frame, atob).Err?
    ensures a.request.Some? && a.request.value.Err? ==> Throttled(a.gate, now) || TimerDelay(s.debounceMs) == 0
    ensures a.request.Some? && a.request.value.Ok? ==>
      var rq := a.request.value.value;
      && rq.url == SendPhotoUrl(s.botToken)
      && rq.form.chatId == s.chatId && rq.form.chatId != []
      && rq.form.photoName == PHOTO_NAME
      && rq.form.caption == Caption(timeText)
      && Ok(rq.form.photo) == DataUrl.ToBlob(frame, atob)
  {
    var d := Admit(g, now, s);
    if d.verdict != Admitted then Attempt(d.gate, d.verdict, None)
    else
      match DataUrl.ToBlob(frame, atob)
      case Err(e) => Attempt(d.gate, d.verdict, Some(Err(e)))
      case Ok(blob) =>
        Attempt(d.gate, d.verdict,
                Some(Ok(Request(SendPhotoUrl(s.botToken), Form(s.chatId, blob, PHOTO_NAME, Caption(timeText))))))
  }

  /** One `getUpdates` entry: its id and, when it carries a message, the chat id. */
  datatype Update = Update(updateId: int, chat: Option<int>)

  /** The parsed reply of one `getUpdates` request, or a request or parse that raised. */
  datatype Reply = Reply(ok: bool, result: seq<Update>) | Raised

  /** `isPolling`, the `telegramChatId` state, and the poll's `lastUpdateId`. */
  datatype Poller = Poller(polling: bool, chatId: string, offset: int)

  datatype PollStatus = Found | Retry | Stopped

  /** `pollForChatId`'s guard and set-up: nothing without a token or while a poll runs. */
  function StartPoll(p: Poller, token: string): (r: Option<Poller>)
    ensures r.None? <==> token == [] || p.polling
    ensures r.Some? ==> r.value == Poller(true, p.chatId, 0)
  {
    if token == [] || p.polling then None else Some(Poller(true, p.chatId, 0))
  }

  /** One `poll()` with its reply. A non-empty batch takes the chat id from the LAST update
      and stops; an empty or not-ok batch retries a second later unchanged; an error (the
      request failing, or a last update without a message) stops polling. */
  function PollStep(p: Poller, reply: Reply): (r: (Poller, PollStatus))
    ensures r.1 == Retry <==> reply.Reply? && (!reply.ok || reply.result == [])
    ensures r.1 == Retry ==> r.0 == p
    ensures r.1 != Retry ==> !r.0.polling
    ensures r.1 == Found <==>
      reply.Reply? && reply.ok && reply.result != [] && reply.result[|reply.result| - 1].chat.Some?
    ensures r.1 == Stopped <==>
      reply.Raised? || (reply.ok && reply.result != [] && reply.result[|reply.result| - 1].chat.None?)
    ensures r.1 == Found ==>
      var last := reply.result[|reply.result| - 1];
      && last.chat.Some?
      && r.0.chatId == IntToString(last.chat.value) && r.0.chatId != []
      && r.0.offset == last.updateId + 1
    ensures r.1 == Stopped ==> r.0 == p.(polling := false)
  {
    match reply
    case Raised => (p.(polling := false), Stopped)
    case Reply(ok, result) =>
      if !ok || result == [] then (p, Retry)
      else
        var last := result[|result| - 1];
        match last.chat
        case None => (p.(polling := false), Stopped)
        case Some(id) => (Poller(false, IntToString(id), last.updateId + 1), Found)
  }

  /** The chat id stored from a non-negative Telegram id reads back as that id. */
  lemma FoundChatIdReadsBack(p: Poller, reply: Reply)
    requires PollStep(p, reply).1 == Found
    requires reply.result[|reply.result| - 1].chat.value >= 0
    ensures ParseDigits(PollStep(p, reply).0.chatId) == reply.result[|reply.result| - 1].chat.value
  {
    ParseNatToString(reply.result[|reply.result| - 1].chat.value);
  }

  /** A reply after which `poll()` tries again a second later. */
  predicate Retries(reply: Reply) {
    reply.Reply? && (!reply.ok || reply.result == [])
  }

  /** Polls of one session: the replies in order, until one ends the poll. The session is
      still waiting exactly when every reply so far was a retry, and then nothing has changed:
      every request of a session asks for the offset it started with (0), because the
      offset is only written when the poll ends. */
  function PollUntilDone(p: Poller, replies: seq<Reply>): (r: (Poller, PollStatus))
    ensures r.1 == Retry <==> forall i :: 0 <= i < |replies| ==> Retries(replies[i])
    ensures r.1 == Retry ==> r.0 == p
    ensures r.1 != Retry ==> !r.0.polling
    ensures r.1 == Found ==> r.0.chatId != []
    decreases |replies|
  {
    if replies == [] then (p, Retry)
    else
      var step := PollStep(p, replies[0]);
      assert forall i :: 1 <= i < |replies| ==> replies[i] == replies[1..][i - 1];
      if step.1 == Retry then PollUntilDone(step.0, replies[1..]) else step
  }

  /** Once the poll finds a chat id, an enabled sender with a token and an open gate is admitted. */
  lemma FoundChatIdOpensGate(p: Poller, reply: Reply, token: string, debounceMs: int, now: int)
    requires PollStep(p, reply).1 == Found && token != []
    ensures Admit(Open, now, Settings(true, token, PollStep(p, reply).0.chatId, debounceMs)).verdict == Admitted
  {
  }
}
