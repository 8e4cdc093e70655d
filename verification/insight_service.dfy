/** The client side of the daily insight: the history lines put into the prompt, and
    how the outcome of the call to the relay becomes the text stored with the entry.
    The service never fails: every outcome maps to a non-blank string. The three
    fixed messages and the line template are kept exactly as the source file spells
    them, which is a mis-encoded rendering of Vietnamese text. */
module InsightService {
  import opened Wrappers
  import opened Text
  import opened Types
  import Relay

  // ---- Prompt history ----------------------------------------------------------------

  /** How many past entries the prompt quotes, and how many characters of each. */
  const HistoryCount := 5
  const ExcerptLength := 50

  const LineHead := "- NgA\U{FF}y "
  const LineEnergy := ": N\U{17D}\U{178}ng l\U{2019}\U{F8}\U{A0}\U{AF}\U{153}ng "
  const LineContent := ", n\U{A0}\U{AF}Ti dung: \""
  const LineTail := "...\""

  /** The text used in place of the history when there is none. */
  const NoHistory := "\U{17D}?A\U{203A}" + "y lA\U{FF} ngA\U{FF}y \U{17D}`\U{A0}\U{A7}\U{15}u tiA\U{A6}n ho\U{A0}\U{A7}\U{FA}c khA'ng cA3 d\U{A0}\U{AF}_ li\U{A0}\U{AF}\U{D8}u c\U{8F}c."

  /** One history line: `- <day>: <energy label>, <first 50 characters of content>...`
      with the fixed wording around the fields. It starts with a hyphen and ends with
      the excerpt, at most fifty characters that begin the content, and the fixed tail. */
  function HistoryLine(h: Entry): (r: string)
    ensures |r| > 0 && r[0] == '-'
    ensures var x := Take(h.content, ExcerptLength);
      && |x| <= ExcerptLength && x <= h.content
      && |r| >= |x| + |LineTail| && r[|r| - |x| - |LineTail|..] == x + LineTail
  {
    var head := LineHead + h.date + LineEnergy + Meta(h.energy).name + LineContent;
    var tail := Take(h.content, ExcerptLength) + LineTail;
    assert (head + tail)[0] == LineHead[0];
    assert (head + tail)[|head|..] == tail;
    head + tail
  }

  /** `history.slice(0, 5).map(line)`: one line for each of the first five entries. */
  function HistoryLines(history: seq<Entry>): (r: seq<string>)
    ensures |r| == if |history| < HistoryCount then |history| else HistoryCount
    ensures forall i :: 0 <= i < |r| ==> r[i] == HistoryLine(history[i])
  {
    var n := if |history| < HistoryCount then |history| else HistoryCount;
    seq(n, i requires 0 <= i < n => HistoryLine(history[i]))
  }

  /** `lines.join("\n")`. */
  function JoinLines(lines: seq<string>): (r: string)
    ensures |lines| == 0 ==> r == []
    ensures |lines| > 0 ==> |r| >= |lines[0]| && r[..|lines[0]|] == lines[0]
    ensures |lines| > 0 && |lines[0]| > 0 ==> |r| > 0
  {
    if |lines| == 0 then []
    else if |lines| == 1 then lines[0]
    else lines[0] + "\n" + JoinLines(lines[1..])
  }

  /** Where line `i` starts in the joined text: every line before it and its separator. */
  function LineStart(lines: seq<string>, i: nat): nat
    requires i <= |lines|
  {
    if i == 0 then 0 else LineStart(lines, i - 1) + |lines[i - 1]| + 1
  }

  /** Line `i` sits at `LineStart(lines, i)` in `r`. */
  predicate LineAt(r: string, lines: seq<string>, i: nat)
    requires i < |lines|
  {
    LineStart(lines, i) + |lines[i]| <= |r|
    && r[LineStart(lines, i)..LineStart(lines, i) + |lines[i]|] == lines[i]
  }

  /** A newline follows line `i` in `r`. */
  predicate NewlineAfter(r: string, lines: seq<string>, i: nat)
    requires i < |lines|
  {
    LineStart(lines, i) + |lines[i]| < |r| && r[LineStart(lines, i) + |lines[i]|] == '\n'
  }

  /** The joined text, position by position: every line sits at its `LineStart`, a
      newline follows every line but the last, and nothing else is there, since the
      text ends with the last line. */
  lemma {:induction false} JoinLinesLayout(lines: seq<string>)
    requires |lines| > 0
    ensures |JoinLines(lines)| + 1 == LineStart(lines, |lines|)
    ensures forall i :: 0 <= i < |lines| ==> LineAt(JoinLines(lines), lines, i)
    ensures forall i :: 0 <= i < |lines| - 1 ==> NewlineAfter(JoinLines(lines), lines, i)
  {
    JoinLinesLength(lines);
    forall i | 0 <= i < |lines|
      ensures LineAt(JoinLines(lines), lines, i)
      ensures i < |lines| - 1 ==> NewlineAfter(JoinLines(lines), lines, i)
    {
      JoinLinesLine(lines, i);
    }
  }

  lemma {:induction false} JoinLinesLength(lines: seq<string>)
    requires |lines| > 0
    ensures |JoinLines(lines)| + 1 == LineStart(lines, |lines|)
  {
    if |lines| > 1 {
      JoinLinesLength(lines[1..]);
      LineStartTail(lines, |lines| - 1);
    }
  }

  /** Line `i` of the joined text, and the newline after it unless it is the last. */
  lemma {:induction false} JoinLinesLine(lines: seq<string>, i: nat)
    requires i < |lines|
    ensures LineAt(JoinLines(lines), lines, i)
    ensures i < |lines| - 1 ==> NewlineAfter(JoinLines(lines), lines, i)
  {
    var r := JoinLines(lines);
    if |lines| > 1 {
      var head := lines[0] + "\n";
      var tail := lines[1..];
      var rest := JoinLines(tail);
      assert r == head + rest;
      if i > 0 {
        var st := LineStart(tail, i - 1);
        var n := |lines[i]|;
        JoinLinesLine(tail, i - 1);
        LineStartTail(lines, i - 1);
        assert tail[i - 1] == lines[i];
        assert r[|head| + st..|head| + st + n] == rest[st..st + n];
        if i < |lines| - 1 {
          assert r[|head| + st + n] == rest[st + n];
        }
      }
    }
  }

  /** Line `i + 1` starts one line and one separator further on than line `i` of the
      lines after the first. */
  lemma {:induction false} LineStartTail(lines: seq<string>, i: nat)
    requires i < |lines|
    ensures LineStart(lines, i + 1) == |lines[0]| + 1 + LineStart(lines[1..], i)
  {
    if i > 0 {
      LineStartTail(lines, i - 1);
      assert lines[1..][i - 1] == lines[i];
    }
  }

  /** The history part of the prompt: the joined lines, or the fixed "first day" text
      when the joined lines are empty. */
  function HistorySection(history: seq<Entry>): (r: string)
    ensures |history| == 0 ==> r == NoHistory
    ensures |history| > 0 ==> r == JoinLines(HistoryLines(history))
  {
    var recent := JoinLines(HistoryLines(history));
    if recent == [] then NoHistory
    else recent
  }

  /** The fixed text stands in exactly when there is no history: a non-empty history
      gives lines that start with `-`, which the fixed text does not. */
  lemma NoHistoryIffEmpty(history: seq<Entry>)
    ensures HistorySection(history) == NoHistory <==> |history| == 0
  {
    if |history| > 0 {
      var lines := HistoryLines(history);
      var recent := JoinLines(lines);
      assert lines[0][0] == '-';
      assert recent[..|lines[0]|] == lines[0];
      assert recent[0] == '-';
      assert NoHistory[0] == '\U{17D}';
    }
  }

  /** Only the first five entries matter: anything after them never reaches the
      prompt. */
  lemma OnlyFirstFive(a: seq<Entry>, b: seq<Entry>)
    requires |a| >= HistoryCount
    ensures HistorySection(a + b) == HistorySection(a)
  {
    assert HistoryLines(a + b) == HistoryLines(a);
  }

  // ---- The outcome of the call -------------------------------------------------------

  const TimeoutMessage := "HA'm" + " nay b\U{A0}\U{A7}\U{AD}n \U{17D}`A\U{153} c\U{A0}\U{AF}` g\U{A0}\U{A7}_ng r\U{A0}\U{A7}\U{9D}t nhi\U{A0}\U{AF}?u r\U{A0}\U{AF}\"i! \U{192}o\"\""
  const ErrorMessage := "HA'm" + " nay b\U{A0}\U{A7}\U{AD}n \U{17D}`A\U{153} lA\U{FF}m r\U{A0}\U{A7}\U{9D}t t\U{A0}\U{AF}`t r\U{A0}\U{AF}\"i! Ngh\U{A0}\U{AF}% ng\U{2019}\U{AD}i thA'i nA\U{FF}o! \U{192}o\"\""
  const FallbackMessage := "C\U{A0}\U{AF}`" + " g\U{A0}\U{A7}_ng lA\U{A6}n nhAc, ngA\U{FF}y mai s\U{A0}\U{A7}\U{AB} t\U{A0}\U{AF}`t h\U{2019}\U{AD}n!"

  /** How the call to the relay ended: a response with status 2xx whose JSON `text` may
      be missing, a response with another status, the five-second abort, or any other
      exception (network failure, unreadable JSON). */
  datatype FetchOutcome = Ok(text: Option<string>) | NotOk(status: int) | Aborted | Failed

  /** `generateDailyInsight`'s result: the reply's trimmed text, or the fallback when it
      is missing or blank; the timeout message after an abort; the error message for a
      bad status or any other exception. */
  function InsightText(o: FetchOutcome): (r: string)
    ensures r != [] && Trim(r) == r
    ensures o.Ok? && Trim(o.text.GetOr("")) != [] ==> r == Trim(o.text.GetOr(""))
    ensures o.Ok? && Trim(o.text.GetOr("")) == [] ==> r == FallbackMessage
    ensures o.Aborted? ==> r == TimeoutMessage
    ensures o.NotOk? || o.Failed? ==> r == ErrorMessage
  {
    MessagesTrimmed();
    match o
    case Ok(t) =>
      var s := Trim(t.GetOr(""));
      TrimIdempotent(t.GetOr(""));
      if s != [] then s else FallbackMessage
    case Aborted => TimeoutMessage
    case _ => ErrorMessage
  }

  /** The three fixed messages are non-blank, distinct and have no white space at
      either end. */
  lemma MessagesTrimmed()
    ensures TimeoutMessage != ErrorMessage && ErrorMessage != FallbackMessage
      && TimeoutMessage != FallbackMessage
    ensures Trim(TimeoutMessage) == TimeoutMessage && TimeoutMessage != []
    ensures Trim(ErrorMessage) == ErrorMessage && ErrorMessage != []
    ensures Trim(FallbackMessage) == FallbackMessage && FallbackMessage != []
  {
    assert |TimeoutMessage| == 57 && |ErrorMessage| == 73 && |FallbackMessage| == 49;
    assert TimeoutMessage[0] == 'H' && ErrorMessage[0] == 'H' && FallbackMessage[0] == 'C';
    assert TimeoutMessage[56] == '"' && ErrorMessage[72] == '"' && FallbackMessage[48] == '!';
    TrimOfTrimmed(TimeoutMessage);
    TrimOfTrimmed(ErrorMessage);
    TrimOfTrimmed(FallbackMessage);
  }

  /** How the relay's answer reaches the service: a 2xx status is `ok` and carries the
      `text` field, when the body has one; any other status is not `ok`. */
  function Received(resp: Relay.Response): (o: FetchOutcome)
    ensures o.Ok? <==> 200 <= resp.status <= 299
    ensures o.Ok? ==> (o.text.Some? <==> resp.body.TextBody?)
    ensures o.Ok? && resp.body.TextBody? ==> o.text == Some(resp.body.text)
    ensures o.NotOk? ==> o.status == resp.status
  {
    if 200 <= resp.status <= 299 then
      Ok(if resp.body.TextBody? then Some(resp.body.text) else None)
    else NotOk(resp.status)
  }

  /** End to end, for a non-blank prompt: the stored insight is the model's trimmed
      text when the key is set and the model replies with something; the fallback when
      it replies with nothing; the error message when the key is missing or the model
      call throws. */
  lemma ServiceOverRelay(prompt: string, key: Option<string>, model: Relay.ModelResult)
    requires Trim(prompt) != []
    ensures var msg := InsightText(Received(Relay.Handle(Relay.Request("POST", Relay.Str(prompt)), key, model)));
      var reply := if model.Reply? then Trim(model.text.GetOr("")) else [];
      && (Relay.HasKey(key) && model.Reply? && reply != [] ==> msg == reply)
      && (Relay.HasKey(key) && model.Reply? && reply == [] ==> msg == FallbackMessage)
      && (!Relay.HasKey(key) || model.Threw? ==> msg == ErrorMessage)
  {
    var resp := Relay.Handle(Relay.Request("POST", Relay.Str(prompt)), key, model);
    assert 200 <= resp.status <= 299 <==> resp.status == 200;
    if resp.status == 200 {
      TrimIdempotent(model.text.GetOr(""));
    }
  }
}
