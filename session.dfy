// The chatbot session of ai_integration/chatbot.py: a bounded context string
// that grows by appending cleaned text and keeps only its most recent
// 10000 characters, a question entry point that refuses to call the remote
// model while the context holds no content, and a word/character summary.

module Session {
  import opened TextCleaning

  /** The bound hard-coded in the chatbot's constructor. */
  const MaxContextLength: nat := 10000

  const NoContentMessage: string :=
    "I don't have any document content to reference. Please upload some files first!"
  const ApologyPrefix: string :=
    "Sorry, I encountered an error while processing your question: "
  const EmptySummary: string := "No documents loaded"

  function Min(a: int, b: int): int {
    if a <= b then a else b
  }

  predicate IsSuffix(a: string, b: string) {
    |a| <= |b| && b[|b| - |a|..] == a
  }

  // ---------------------------------------------------------------------
  // The sliding window

  /** The last n characters of s (all of s when it is not longer than n):
      what the slice with a negative start keeps. */
  function Window(s: string, n: nat): (r: string)
    ensures |r| == Min(|s|, n)
    ensures IsSuffix(r, s)
  {
    if |s| > n then s[|s| - n..] else s
  }

  /** What one ingestion appends before trimming: a separator space and the
      cleaned text. */
  function Piece(text: PyValue): (r: string)
    ensures 1 <= |r| <= MaxCleanLength + |Ellipsis| + 1
  {
    " " + Preprocess(text)
  }

  /** The context after one ingestion: the piece is appended, then only the
      most recent characters are kept. The new length is the old length plus
      the separator and the cleaned text, capped at the bound; and since a
      cleaned text has at most 8003 characters, the newest material is never
      cut: the separator and the whole cleaned text end the new context. */
  function Extend(context: string, text: PyValue): (r: string)
    ensures |r| == Min(|context| + 1 + |Preprocess(text)|, MaxContextLength)
    ensures IsSuffix(Piece(text), r)
  {
    WindowKeepsShortSuffix(context, Piece(text), MaxContextLength);
    Window(context + Piece(text), MaxContextLength)
  }

  /** The new context is a suffix of the old context followed by the piece,
      and is exactly that string when it fits. */
  lemma ExtendIsSuffix(context: string, text: PyValue)
    ensures IsSuffix(Extend(context, text), context + Piece(text))
    ensures Extend(context, text) == context + Piece(text)
        <==> |context| + 1 + |Preprocess(text)| <= MaxContextLength
  {
  }

  lemma WindowKeepsShortSuffix(x: string, y: string, n: nat)
    requires |y| <= n
    ensures IsSuffix(y, Window(x + y, n))
  {
    var r := Window(x + y, n);
    var xy := x + y;
    assert xy[|xy| - |y|..] == y;
    assert r[|r| - |y|..] == xy[|xy| - |y|..];
  }

  /** A context within the bound never shrinks, and every ingestion, even of
      nothing usable, adds at least the separator while there is room. */
  lemma ExtendGrows(context: string, text: PyValue)
    requires |context| <= MaxContextLength
    ensures |context| <= |Extend(context, text)|
    ensures |context| < MaxContextLength ==> |context| < |Extend(context, text)|
  {
  }

  /** Ingesting nothing usable into an empty context leaves one space. */
  lemma ExtendEmpty(text: PyValue)
    requires !text.PyStr? || text.s == ""
    ensures Extend("", text) == " "
  {
    assert Piece(text) == " " + "";
    assert "" + Piece(text) == " ";
  }

  /** A single ingestion into an empty context gives the separator and the
      cleaned text, at most 8004 characters, never the full bound. */
  lemma ExtendFromEmpty(text: PyValue)
    ensures Extend("", text) == " " + Preprocess(text)
    ensures |Extend("", text)| <= MaxCleanLength + |Ellipsis| + 1 < MaxContextLength
  {
    assert "" + Piece(text) == Piece(text);
  }

  // ---------------------------------------------------------------------
  // A sequence of ingestions

  /** The context after ingesting the texts in order. */
  function ExtendAll(context: string, texts: seq<PyValue>): string
    decreases |texts|
  {
    if texts == [] then context
    else ExtendAll(Extend(context, texts[0]), texts[1..])
  }

  /** Everything the ingestions append, before any trimming. */
  function Appended(texts: seq<PyValue>): string
    decreases |texts|
  {
    if texts == [] then "" else Piece(texts[0]) + Appended(texts[1..])
  }

  lemma WindowOfWindow(s: string, t: string, n: nat)
    ensures Window(Window(s, n) + t, n) == Window(s + t, n)
  {
    if |s| > n {
      var w := s[|s| - n..];
      assert Window(s, n) == w;
      if |t| >= n {
        LongTailWindow(w, t, n);
        LongTailWindow(s, t, n);
      } else if t != [] {
        ShortTailWindow(s, t, n);
      } else {
        assert w + t == w && s + t == s;
      }
    }
  }

  /** A tail at least as long as the window fills it alone. */
  lemma LongTailWindow(x: string, t: string, n: nat)
    requires |t| >= n
    ensures Window(x + t, n) == t[|t| - n..]
  {
    var u := x + t;
    if |u| > n {
      assert u[|u| - n..] == t[|t| - n..];
    } else {
      assert |x| == 0 && |t| == n;
      assert u == t;
    }
  }

  /** A shorter non-empty tail shares the window with the last characters
      of the head, which an earlier window already kept. */
  lemma ShortTailWindow(s: string, t: string, n: nat)
    requires |s| > n && 0 < |t| < n
    ensures Window(s[|s| - n..] + t, n) == Window(s + t, n)
  {
    var w := s[|s| - n..];
    var u := s + t;
    var v := w + t;
    assert v[|v| - n..] == w[|t|..] + t;
    assert u[|u| - n..] == s[|s| - n + |t|..] + t;
    assert w[|t|..] == s[|s| - n + |t|..];
  }

  /** The sliding window: after any number of ingestions the context is the
      last 10000 characters of the initial context followed by everything
      that was appended. */
  lemma {:induction false} ExtendAllIsWindow(context: string, texts: seq<PyValue>)
    requires |context| <= MaxContextLength
    ensures ExtendAll(context, texts) == Window(context + Appended(texts), MaxContextLength)
    decreases |texts|
  {
    if texts == [] {
      assert context + Appended(texts) == context;
    } else {
      var piece := Piece(texts[0]);
      var rest := Appended(texts[1..]);
      var next := Extend(context, texts[0]);
      assert |next| <= MaxContextLength;
      ExtendAllIsWindow(next, texts[1..]);
      WindowOfWindow(context + piece, rest, MaxContextLength);
      AppendedStep(context, texts);
    }
  }

  lemma AppendedStep(context: string, texts: seq<PyValue>)
    requires texts != []
    ensures context + Piece(texts[0]) + Appended(texts[1..]) == context + Appended(texts)
  {
  }

  /** The length after any number of ingestions. */
  lemma ExtendAllLength(context: string, texts: seq<PyValue>)
    requires |context| <= MaxContextLength
    ensures |ExtendAll(context, texts)| == Min(|context| + |Appended(texts)|, MaxContextLength)
  {
    ExtendAllIsWindow(context, texts);
  }

  // ---------------------------------------------------------------------
  // Word count: splitting on whitespace runs

  /** Number of leading non-whitespace characters. */
  function WordLength(s: string): (n: nat)
    ensures n <= |s|
    ensures forall k :: 0 <= k < n ==> !IsSpace(s[k])
    ensures n < |s| ==> IsSpace(s[n])
  {
    if s == [] || IsSpace(s[0]) then 0 else 1 + WordLength(s[1..])
  }

  /** The tokens of splitting on whitespace with no separator given: each
      is non-empty and holds no whitespace. */
  function Words(s: string): (ws: seq<string>)
    ensures forall i :: 0 <= i < |ws| ==> ws[i] != [] && SpaceFree(ws[i])
    decreases |s|
  {
    if s == [] then []
    else if IsSpace(s[0]) then Words(s[1..])
    else
      var n := WordLength(s);
      var rest := Words(s[n..]);
      assert forall i :: 0 < i <= |rest| ==> ([s[..n]] + rest)[i] == rest[i - 1];
      [s[..n]] + rest
  }

  function Concat(ws: seq<string>): string
    decreases |ws|
  {
    if ws == [] then "" else ws[0] + Concat(ws[1..])
  }

  /** The tokens, joined back together, are exactly the non-whitespace
      characters of the text in order: nothing is lost or invented. */
  lemma {:induction false} WordsCoverNonSpaces(s: string)
    ensures Concat(Words(s)) == NonSpaces(s)
    decreases |s|
  {
    if s == [] {
    } else if IsSpace(s[0]) {
      WordsCoverNonSpaces(s[1..]);
      assert s == [s[0]] + s[1..];
      NonSpacesAppend([s[0]], s[1..]);
    } else {
      var n := WordLength(s);
      WordsCoverNonSpaces(s[n..]);
      assert s == s[..n] + s[n..];
      NonSpacesAppend(s[..n], s[n..]);
      NonSpacesOfSpaceFree(s[..n]);
      assert Words(s) == [s[..n]] + Words(s[n..]);
      assert Concat([s[..n]] + Words(s[n..])) == s[..n] + Concat(Words(s[n..])) by {
        assert ([s[..n]] + Words(s[n..]))[1..] == Words(s[n..]);
      }
    }
  }

  /** There are no tokens exactly when the text is all whitespace. */
  lemma {:induction false} WordsEmptyIffBlank(s: string)
    ensures Words(s) == [] <==> Blank(s)
    decreases |s|
  {
    if s == [] {
    } else if IsSpace(s[0]) {
      WordsEmptyIffBlank(s[1..]);
      if Blank(s[1..]) {
        forall k | 0 <= k < |s| ensures IsSpace(s[k]) {
          if k > 0 { assert s[k] == s[1..][k - 1]; }
        }
      } else {
        var k :| 0 <= k < |s[1..]| && !IsSpace(s[1..][k]);
        assert s[k + 1] == s[1..][k];
      }
    } else {
      assert !IsSpace(s[0]);
    }
  }

  /** Whether a token begins at index i: a non-whitespace character at the
      start of the text or right after whitespace. */
  predicate WordStart(s: string, i: nat)
    requires i < |s|
  {
    !IsSpace(s[i]) && (i == 0 || IsSpace(s[i - 1]))
  }

  /** The number of token beginnings at indices lo up to hi. */
  function StartsIn(s: string, lo: nat, hi: nat): nat
    requires lo <= hi <= |s|
    decreases hi - lo
  {
    if lo == hi then 0 else (if WordStart(s, lo) then 1 else 0) + StartsIn(s, lo + 1, hi)
  }

  /** The number of token beginnings in the whole text. */
  function WordStarts(s: string): nat {
    StartsIn(s, 0, |s|)
  }

  lemma {:induction false} StartsInSplit(s: string, lo: nat, mid: nat, hi: nat)
    requires lo <= mid <= hi <= |s|
    ensures StartsIn(s, lo, hi) == StartsIn(s, lo, mid) + StartsIn(s, mid, hi)
    decreases mid - lo
  {
    if lo < mid {
      StartsInSplit(s, lo + 1, mid, hi);
    }
  }

  /** Inside a run of non-whitespace nothing begins a token. */
  lemma {:induction false} NoStartsInsideWord(s: string, lo: nat, hi: nat)
    requires 1 <= lo <= hi <= |s|
    requires forall k :: lo - 1 <= k < hi ==> !IsSpace(s[k])
    ensures StartsIn(s, lo, hi) == 0
    decreases hi - lo
  {
    if lo < hi {
      NoStartsInsideWord(s, lo + 1, hi);
    }
  }

  /** Away from the cut, dropping the first k characters keeps every token
      beginning, shifted by k. */
  lemma {:induction false} StartsInShift(s: string, k: nat, lo: nat, hi: nat)
    requires k < lo <= hi <= |s|
    ensures StartsIn(s, lo, hi) == StartsIn(s[k..], lo - k, hi - k)
    decreases hi - lo
  {
    if lo < hi {
      assert s[k..][lo - k] == s[lo] && s[k..][lo - k - 1] == s[lo - 1];
      StartsInShift(s, k, lo + 1, hi);
    }
  }

  /** At a cut next to whitespace, the rest has the same token beginnings. */
  lemma StartsAfterCut(s: string, k: nat)
    requires 0 < k <= |s|
    requires k == |s| || IsSpace(s[k - 1]) || IsSpace(s[k])
    ensures StartsIn(s, k, |s|) == WordStarts(s[k..])
  {
    if k < |s| {
      assert s[k..][0] == s[k];
      StartsInShift(s, k, k + 1, |s|);
    }
  }

  /** The split yields one token per token beginning: tokens are maximal
      runs of non-whitespace, never pieces of one run. */
  lemma {:induction false} WordsCountStarts(s: string)
    ensures |Words(s)| == WordStarts(s)
    decreases |s|
  {
    if s == [] {
    } else if IsSpace(s[0]) {
      WordsCountStarts(s[1..]);
      StartsInSplit(s, 0, 1, |s|);
      StartsAfterCut(s, 1);
    } else {
      var n := WordLength(s);
      WordsCountStarts(s[n..]);
      StartsInSplit(s, 0, n, |s|);
      NoStartsInsideWord(s, 1, n);
      StartsAfterCut(s, n);
      assert Words(s) == [s[..n]] + Words(s[n..]);
    }
  }

  // ---------------------------------------------------------------------
  // Decimal rendering of counts

  function DigitChar(d: nat): char
    requires d < 10
  {
    "0123456789"[d]
  }

  predicate IsDigit(c: char) {
    '0' <= c <= '9'
  }

  function DigitValue(c: char): nat
    requires IsDigit(c)
  {
    (c as int - '0' as int) as nat
  }

  /** The decimal rendering of a count, as string formatting writes it. */
  function Decimal(n: nat): (r: string)
    ensures r != []
    ensures forall i :: 0 <= i < |r| ==> IsDigit(r[i])
    decreases n
  {
    if n < 10 then [DigitChar(n)] else Decimal(n / 10) + [DigitChar(n % 10)]
  }

  /** The value a string of digits denotes. */
  function DecimalValue(s: string): nat
    requires forall i :: 0 <= i < |s| ==> IsDigit(s[i])
    decreases |s|
  {
    if s == [] then 0 else 10 * DecimalValue(s[..|s| - 1]) + DigitValue(s[|s| - 1])
  }

  /** Reading the rendering back gives the count, and the rendering has no
      leading zero. */
  lemma {:induction false} DecimalRoundTrip(n: nat)
    ensures DecimalValue(Decimal(n)) == n
    ensures Decimal(n)[0] == '0' <==> n == 0
    decreases n
  {
    var r := Decimal(n);
    if n < 10 {
      assert DigitValue(DigitChar(n)) == n;
      assert r[..|r| - 1] == [];
    } else {
      DecimalRoundTrip(n / 10);
      assert r[..|r| - 1] == Decimal(n / 10);
      assert DigitValue(DigitChar(n % 10)) == n % 10;
    }
  }

  // ---------------------------------------------------------------------
  // The summary

  /** The summary line for a non-empty context. */
  function CountsLine(words: nat, chars: nat): string {
    "Loaded " + Decimal(words) + " words (" + Decimal(chars) + " characters) from uploaded documents"
  }

  /** The summary line: empty only for the empty context (a context of
      spaces still counts as loaded), otherwise the token and character
      counts. */
  function Summary(context: string): (r: string)
    ensures r == EmptySummary <==> context == ""
  {
    if context == "" then EmptySummary
    else
      var r := CountsLine(|Words(context)|, |context|);
      assert r[0] == 'L' != EmptySummary[0];
      r
  }

  /** A context of one space, as left by ingesting nothing usable, reports
      zero words and one character. */
  lemma SummaryOfSeparator()
    ensures Summary(" ") == "Loaded " + "0" + " words (" + "1" + " characters) from uploaded documents"
  {
    var context := " ";
    assert IsSpace(context[0]) && context[1..] == [];
    assert |Words(context)| == 0;
    assert Decimal(0) == "0" && Decimal(1) == "1";
  }

  // ---------------------------------------------------------------------
  // The remote model as an oracle

  datatype Option<T> = None | Some(value: T)

  /** What the remote answer call does: return text, return no content (the
      reply's message content is null), or raise with a message. */
  datatype Reply = Answered(text: string) | Absent | Raised(message: string)

  /** What asking returns for a reply: returned text verbatim, nothing for
      a reply without content, or the apology with the error message. */
  function AnswerText(reply: Reply): (r: Option<string>)
    ensures reply.Answered? ==> r == Some(reply.text)
    ensures reply.Absent? ==> r == None
    ensures reply.Raised? ==>
      r.Some? && |ApologyPrefix| <= |r.value| && r.value[..|ApologyPrefix|] == ApologyPrefix
      && r.value[|ApologyPrefix|..] == reply.message
  {
    match reply
    case Answered(t) => Some(t)
    case Absent => None
    case Raised(m) => Some(ApologyPrefix + m)
  }

  /** What asking gives for a context and a question, with respond the
      remote model's behaviour: the no-content message for a blank context;
      otherwise the model's reply, nothing, or an apology. The no-content
      message and the apology only come from their own paths. */
  function AskOutcome(respond: (string, string) -> Reply, context: string, question: string)
    : (r: Option<string>)
    ensures Blank(context) ==> r == Some(NoContentMessage)
    ensures !Blank(context) && respond(context, question).Answered?
            ==> r == Some(respond(context, question).text)
    ensures !Blank(context) && respond(context, question).Absent? ==> r == None
    ensures !Blank(context) && respond(context, question).Raised?
            ==> r == Some(ApologyPrefix + respond(context, question).message)
  {
    if Blank(context) then Some(NoContentMessage)
    else
      var r := AnswerText(respond(context, question));
      assert respond(context, question).Raised? ==> r.value == r.value[..|ApologyPrefix|] + r.value[|ApologyPrefix|..];
      r
  }

  /** The remote question-answering service. Its behaviour is a fixed
      function of context and question; the ghost counter records how many
      requests were sent. */
  class AIModel {
    const respond: (string, string) -> Reply
    ghost var calls: nat

    constructor(respond: (string, string) -> Reply)
      ensures this.respond == respond && calls == 0
    {
      this.respond := respond;
      calls := 0;
    }

    method Answer(context: string, question: string) returns (reply: Reply)
      modifies this`calls
      ensures reply == respond(context, question)
      ensures calls == old(calls) + 1
    {
      reply := respond(context, question);
      calls := calls + 1;
    }
  }

  // ---------------------------------------------------------------------
  // The chatbot

  class Chatbot {
    const model: AIModel
    var context: string
    const maxContextLength: nat

    /** The bound is the fixed one and the context stays within it. */
    ghost predicate Valid()
      reads this
    {
      maxContextLength == MaxContextLength && |context| <= maxContextLength
    }

    constructor(respond: (string, string) -> Reply)
      ensures Valid()
      ensures context == "" && maxContextLength == MaxContextLength
      ensures fresh(model) && model.respond == respond && model.calls == 0
    {
      model := new AIModel(respond);
      context := "";
      maxContextLength := 10000;
    }

    /** Appends a space and the cleaned text, then keeps the most recent
        characters. */
    method AddContext(text: PyValue)
      requires Valid()
      modifies this`context
      ensures Valid()
      ensures context == Extend(old(context), text)
      ensures |old(context)| <= |context|
      ensures IsSuffix(Piece(text), context)
    {
      var processed := Preprocess(text);
      var newContext := context + " " + processed;
      assert newContext == old(context) + Piece(text);
      if |newContext| > maxContextLength {
        newContext := newContext[|newContext| - maxContextLength..];
      }
      ExtendGrows(old(context), text);
      context := newContext;
    }

    /** Refuses without contacting the model while the context has no
        content; otherwise forwards context and question once. */
    method Ask(question: string) returns (answer: Option<string>)
      modifies model`calls
      ensures answer == AskOutcome(model.respond, context, question)
      ensures Blank(context) ==> answer == Some(NoContentMessage) && model.calls == old(model.calls)
      ensures !Blank(context) ==> model.calls == old(model.calls) + 1
    {
      if Strip(context) == [] {
        return Some(NoContentMessage);
      }
      var reply := model.Answer(context, question);
      answer := AnswerText(reply);
    }

    method GetContextSummary() returns (summary: string)
      ensures summary == Summary(context)
      ensures summary == EmptySummary <==> context == ""
    {
      if context == "" {
        return EmptySummary;
      }
      var wordCount := |Words(context)|;
      var charCount := |context|;
      summary := CountsLine(wordCount, charCount);
    }
  }

  /** A fresh session that ingests nothing usable reports one character and
      no words, and still refuses questions without contacting the model. */
  method UnusableUploadScenario(respond: (string, string) -> Reply, question: string)
    returns (summary: string, answer: Option<string>)
    ensures summary == "Loaded " + "0" + " words (" + "1" + " characters) from uploaded documents"
    ensures answer == Some(NoContentMessage)
  {
    var bot := new Chatbot(respond);
    bot.AddContext(PyNone);
    ExtendEmpty(PyNone);
    summary := bot.GetContextSummary();
    SummaryOfSeparator();
    answer := bot.Ask(question);
    assert bot.model.calls == 0;
  }
}
