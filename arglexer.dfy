/** The command-argument lexer: the command word up to the first space is
    dropped, then the rest is scanned with one cursor. An alphanumeric
    character starts a word, which runs to the next non-alphanumeric character
    and swallows it; a double quote starts a sentence, which runs to the next
    double quote (or the end of the text) and swallows it; any other character
    is skipped. Text is modelled one index per character, which is what the
    byte slicing of the source computes on ASCII text. */
module ArgLexer {
  import opened Text

  const Quote: char := '"'
  const Space: char := ' '

  /** `char::is_alphanumeric`, restricted to ASCII letters and digits. */
  predicate IsAlphanumeric(c: char) {
    ('a' <= c <= 'z') || ('A' <= c <= 'Z') || ('0' <= c <= '9')
  }

  /** A non-empty run of alphanumeric characters. */
  predicate IsWord(w: string) {
    |w| > 0 && forall j :: 0 <= j < |w| ==> IsAlphanumeric(w[j])
  }

  /** The first index at or after `i` that is not alphanumeric, or `|s|`
      (RunEndFinds). */
  function RunEnd(s: string, i: nat): (e: nat)
    requires i <= |s|
    ensures i <= e <= |s|
    decreases |s| - i
  {
    if i < |s| && IsAlphanumeric(s[i]) then RunEnd(s, i + 1) else i
  }

  /** RunEnd passes over alphanumeric characters only and stops at the first other one. */
  lemma {:induction false} RunEndFinds(s: string, i: nat)
    requires i <= |s|
    ensures forall j :: i <= j < RunEnd(s, i) ==> IsAlphanumeric(s[j])
    ensures RunEnd(s, i) < |s| ==> !IsAlphanumeric(s[RunEnd(s, i)])
    decreases |s| - i
  {
    if i < |s| && IsAlphanumeric(s[i]) {
      RunEndFinds(s, i + 1);
    }
  }

  /** That characterisation pins RunEnd down. */
  lemma {:induction false} RunEndIs(s: string, i: nat, e: nat)
    requires i <= e <= |s|
    requires forall j :: i <= j < e ==> IsAlphanumeric(s[j])
    requires e < |s| ==> !IsAlphanumeric(s[e])
    ensures RunEnd(s, i) == e
    decreases e - i
  {
    if i < e {
      RunEndIs(s, i + 1, e);
    }
  }

  /** Where a token sits in the argument text: `s[lo..hi]`. */
  datatype Span = Span(lo: nat, hi: nat)

  /** The positions of the tokens the cursor finds from index `i` on. This is
      the reference the imperative lexer is proved against. */
  function SpansFrom(s: string, i: nat): seq<Span>
    requires i <= |s|
    decreases |s| - i
  {
    if i == |s| then []
    else if IsAlphanumeric(s[i]) then
      var e := RunEnd(s, i);
      [Span(i, e)] + SpansFrom(s, Min(e + 1, |s|))
    else if s[i] == Quote then
      var e := IndexFrom(s, i + 1, Quote);
      [Span(i + 1, e)] + SpansFrom(s, Min(e + 1, |s|))
    else SpansFrom(s, i + 1)
  }

  /** The text at a span (nothing when the span is out of range). */
  function Slice(s: string, sp: Span): string {
    if sp.lo <= sp.hi <= |s| then s[sp.lo..sp.hi] else []
  }

  /** The text at each span, in order. */
  function Slices(s: string, spans: seq<Span>): seq<string>
    decreases |spans|
  {
    if spans == [] then [] else [Slice(s, spans[0])] + Slices(s, spans[1..])
  }

  lemma {:induction false} SlicesAt(s: string, spans: seq<Span>)
    ensures |Slices(s, spans)| == |spans|
    ensures forall k :: 0 <= k < |spans| ==> Slices(s, spans)[k] == Slice(s, spans[k])
    decreases |spans|
  {
    if spans != [] {
      SlicesAt(s, spans[1..]);
      var r := Slices(s, spans);
      forall k | 0 <= k < |spans|
        ensures r[k] == Slice(s, spans[k])
      {
        if k > 0 {
          assert r[k] == Slices(s, spans[1..])[k - 1];
          assert spans[k] == spans[1..][k - 1];
        }
      }
    }
  }

  /** The tokens the cursor produces from index `i` on. */
  function TokensFrom(s: string, i: nat): seq<string>
    requires i <= |s|
    decreases |s| - i
  {
    if i == |s| then []
    else if IsAlphanumeric(s[i]) then
      var e := RunEnd(s, i);
      [s[i..e]] + TokensFrom(s, Min(e + 1, |s|))
    else if s[i] == Quote then
      var e := IndexFrom(s, i + 1, Quote);
      [s[i + 1..e]] + TokensFrom(s, Min(e + 1, |s|))
    else TokensFrom(s, i + 1)
  }

  /** The tokens of an argument text. */
  function Lex(s: string): seq<string> {
    TokensFrom(s, 0)
  }

  /** The text after the first space: what `lex_args` scans. */
  function ArgumentText(message: string): (arguments: string)
    requires Space in message
    ensures |arguments| < |message|
    ensures arguments == message[|message| - |arguments|..]
    ensures message[|message| - |arguments| - 1] == Space
    ensures Space !in message[..|message| - |arguments| - 1]
  {
    message[IndexOf(message, Space) + 1..]
  }

  /** The command word (any text without a space) is never scanned:
      only what follows the first space is. */
  lemma CommandWordIgnored(command: string, rest: string)
    requires Space !in command
    ensures ArgumentText(command + [Space] + rest) == rest
  {
    var m := command + [Space] + rest;
    IndexFromIs(m, 0, Space, |command|);
    assert m[|command| + 1..] == rest;
  }

  lemma SlicesCons(s: string, first: Span, rest: seq<Span>)
    ensures Slices(s, [first] + rest) == [Slice(s, first)] + Slices(s, rest)
  {
    assert ([first] + rest)[1..] == rest;
  }

  /** A word from `i` to `e`: it is the next token and the cursor moves past
      the character that ends it. */
  lemma WordAt(s: string, i: nat, e: nat)
    requires i < e <= |s|
    requires forall j :: i <= j < e ==> IsAlphanumeric(s[j])
    requires e < |s| ==> !IsAlphanumeric(s[e])
    ensures TokensFrom(s, i) == [s[i..e]] + TokensFrom(s, Min(e + 1, |s|))
  {
    RunEndIs(s, i, e);
  }

  /** A quote at `i` whose sentence ends at `e` (the next quote or the end):
      the sentence is the next token and the cursor moves past the closing quote. */
  lemma SentenceAt(s: string, i: nat, e: nat)
    requires i < e <= |s| && s[i] == Quote
    requires forall j :: i < j < e ==> s[j] != Quote
    requires e < |s| ==> s[e] == Quote
    ensures TokensFrom(s, i) == [s[i + 1..e]] + TokensFrom(s, Min(e + 1, |s|))
  {
    IndexFromIs(s, i + 1, Quote, e);
  }

  /** A character that is neither alphanumeric nor a quote starts no token. */
  lemma SkipAt(s: string, i: nat)
    requires i < |s| && !IsAlphanumeric(s[i]) && s[i] != Quote
    ensures TokensFrom(s, i) == TokensFrom(s, i + 1)
  {
  }

  /** `lex_word`: from an alphanumeric character at `start`, advance the cursor
      past the run and the one character that ends it. */
  method LexWord(s: string, start: nat) returns (word: string, next: nat)
    requires start < |s| && IsAlphanumeric(s[start])
    ensures start < next <= |s|
    ensures IsWord(word) && start + |word| <= next && word == s[start..start + |word|]
    ensures next == |s| || !IsAlphanumeric(s[next - 1])
    ensures next == Min(start + |word| + 1, |s|)
    ensures TokensFrom(s, start) == [word] + TokensFrom(s, next)
  {
    var j := start + 1;
    while j < |s| && IsAlphanumeric(s[j])
      invariant start < j <= |s|
      invariant forall k :: start <= k < j ==> IsAlphanumeric(s[k])
    {
      j := j + 1;
    }
    word := s[start..j];
    next := if j < |s| then j + 1 else j;
    WordAt(s, start, j);
  }

  /** `lex_sentence`: from a quote at `start`, advance the cursor past the next
      quote (or to the end of the text); the token is what lies between. */
  method LexSentence(s: string, start: nat) returns (sentence: string, next: nat)
    requires start < |s| && s[start] == Quote
    ensures start < next <= |s|
    ensures start + 1 + |sentence| <= |s| && sentence == s[start + 1..start + 1 + |sentence|]
    ensures Quote !in sentence
    ensures next == |s| || s[next - 1] == Quote
    ensures next == Min(start + |sentence| + 2, |s|)
    ensures TokensFrom(s, start) == [sentence] + TokensFrom(s, next)
  {
    var j := start + 1;
    while j < |s| && s[j] != Quote
      invariant start < j <= |s|
      invariant forall k :: start < k < j ==> s[k] != Quote
    {
      j := j + 1;
    }
    sentence := s[start + 1..j];
    next := if j < |s| then j + 1 else j;
    SentenceAt(s, start, j);
  }

  lemma Reassociate(done: seq<string>, token: string, rest: seq<string>)
    ensures done + [token] + rest == done + ([token] + rest)
  {
  }

  /** `lex_args`: drop the command word and lex the rest with one cursor. */
  method LexArgs(message: string) returns (args: seq<string>)
    requires Space in message
    ensures args == Lex(ArgumentText(message))
  {
    var firstSpace := IndexOf(message, Space);
    var arguments := message[firstSpace + 1..];
    assert arguments == ArgumentText(message);
    args := [];
    var i := 0;
    while i < |arguments|
      invariant 0 <= i <= |arguments|
      invariant args + TokensFrom(arguments, i) == Lex(arguments)
    {
      var c := arguments[i];
      if IsAlphanumeric(c) {
        var word, next := LexWord(arguments, i);
        Reassociate(args, word, TokensFrom(arguments, next));
        args := args + [word];
        i := next;
      } else if c == Quote {
        var sentence, next := LexSentence(arguments, i);
        Reassociate(args, sentence, TokensFrom(arguments, next));
        args := args + [sentence];
        i := next;
      } else {
        SkipAt(arguments, i);
        i := i + 1;
      }
    }
    assert args + [] == args;
  }

  /** A word token: a maximal non-empty alphanumeric run. */
  predicate IsWordSpan(s: string, sp: Span) {
    && sp.lo < sp.hi <= |s|
    && (forall j :: sp.lo <= j < sp.hi ==> IsAlphanumeric(s[j]))
    && (sp.hi < |s| ==> !IsAlphanumeric(s[sp.hi]))
  }

  /** A sentence token: right after a quote, up to the next quote or the end. */
  predicate IsSentenceSpan(s: string, sp: Span) {
    && 0 < sp.lo <= sp.hi <= |s|
    && s[sp.lo - 1] == Quote
    && (forall j :: sp.lo <= j < sp.hi ==> s[j] != Quote)
    && (sp.hi < |s| ==> s[sp.hi] == Quote)
  }

  /** Every span is a word or a sentence, and each ends before the next begins. */
  predicate WellFormedSpans(s: string, spans: seq<Span>) {
    && (forall k :: 0 <= k < |spans| ==> IsWordSpan(s, spans[k]) || IsSentenceSpan(s, spans[k]))
    && (forall k :: 0 <= k < |spans| - 1 ==> spans[k].hi < spans[k + 1].lo)
  }

  lemma WellFormedCons(s: string, first: Span, rest: seq<Span>)
    requires IsWordSpan(s, first) || IsSentenceSpan(s, first)
    requires WellFormedSpans(s, rest)
    requires rest != [] ==> first.hi < rest[0].lo
    ensures WellFormedSpans(s, [first] + rest)
  {
    var spans := [first] + rest;
    forall k | 0 <= k < |spans|
      ensures IsWordSpan(s, spans[k]) || IsSentenceSpan(s, spans[k])
    {
      if k > 0 { assert spans[k] == rest[k - 1]; }
    }
    forall k | 0 <= k < |spans| - 1
      ensures spans[k].hi < spans[k + 1].lo
    {
      if k > 0 { assert spans[k] == rest[k - 1] && spans[k + 1] == rest[k]; }
    }
  }

  /** SpansFrom at a word, unfolded once. */
  lemma SpansAtWord(s: string, i: nat)
    requires i < |s| && IsAlphanumeric(s[i])
    ensures SpansFrom(s, i) == [Span(i, RunEnd(s, i))] + SpansFrom(s, Min(RunEnd(s, i) + 1, |s|))
  {
  }

  /** SpansFrom at a quote, unfolded once. */
  lemma SpansAtQuote(s: string, i: nat)
    requires i < |s| && s[i] == Quote
    ensures SpansFrom(s, i) == [Span(i + 1, IndexFrom(s, i + 1, Quote))]
                               + SpansFrom(s, Min(IndexFrom(s, i + 1, Quote) + 1, |s|))
  {
  }

  /** TokensFrom at a word, unfolded once. */
  lemma TokensAtWord(s: string, i: nat)
    requires i < |s| && IsAlphanumeric(s[i])
    ensures TokensFrom(s, i) == [s[i..RunEnd(s, i)]] + TokensFrom(s, Min(RunEnd(s, i) + 1, |s|))
  {
  }

  /** TokensFrom at a quote, unfolded once. */
  lemma TokensAtQuote(s: string, i: nat)
    requires i < |s| && s[i] == Quote
    ensures TokensFrom(s, i) == [s[i + 1..IndexFrom(s, i + 1, Quote)]]
                                + TokensFrom(s, Min(IndexFrom(s, i + 1, Quote) + 1, |s|))
  {
  }

  /** The spans found from `i` on start at `i` or later. */
  lemma {:induction false} SpansStart(s: string, i: nat)
    requires i <= |s|
    ensures SpansFrom(s, i) != [] ==> i < |s| && SpansFrom(s, i)[0].lo >= i
    decreases |s| - i
  {
    if i < |s| && !IsAlphanumeric(s[i]) && s[i] != Quote {
      SpansStart(s, i + 1);
    }
  }

  /** SpansWellFormed, the step at a word. */
  lemma WordSpanStep(s: string, i: nat)
    requires i < |s| && IsAlphanumeric(s[i])
    requires var next := Min(RunEnd(s, i) + 1, |s|);
      WellFormedSpans(s, SpansFrom(s, next))
    ensures WellFormedSpans(s, SpansFrom(s, i))
  {
    var e := RunEnd(s, i);
    var next := Min(e + 1, |s|);
    var rest := SpansFrom(s, next);
    RunEndFinds(s, i);
    SpansAtWord(s, i);
    assert IsWordSpan(s, Span(i, e));
    SpansStart(s, next);
    WellFormedCons(s, Span(i, e), rest);
  }

  /** SpansWellFormed, the step at a quote. */
  lemma SentenceSpanStep(s: string, i: nat)
    requires i < |s| && s[i] == Quote
    requires var next := Min(IndexFrom(s, i + 1, Quote) + 1, |s|);
      WellFormedSpans(s, SpansFrom(s, next))
    ensures WellFormedSpans(s, SpansFrom(s, i))
  {
    var e := IndexFrom(s, i + 1, Quote);
    var next := Min(e + 1, |s|);
    var rest := SpansFrom(s, next);
    IndexFromFinds(s, i + 1, Quote);
    SpansAtQuote(s, i);
    assert IsSentenceSpan(s, Span(i + 1, e));
    SpansStart(s, next);
    WellFormedCons(s, Span(i + 1, e), rest);
  }

  /** Each span found from `i` on is a word or a sentence, and they come left
      to right with at least one character (the swallowed terminator or
      closing quote) between. */
  lemma {:induction false} SpansWellFormed(s: string, i: nat)
    requires i <= |s|
    ensures WellFormedSpans(s, SpansFrom(s, i))
    decreases |s| - i
  {
    if i < |s| {
      if IsAlphanumeric(s[i]) {
        SpansWellFormed(s, Min(RunEnd(s, i) + 1, |s|));
        WordSpanStep(s, i);
      } else if s[i] == Quote {
        SpansWellFormed(s, Min(IndexFrom(s, i + 1, Quote) + 1, |s|));
        SentenceSpanStep(s, i);
      } else {
        SpansWellFormed(s, i + 1);
      }
    }
  }

  /** A span found from cursor `i` starts at `i` itself or right after a
      character that is not alphanumeric. */
  predicate AfterBreak(s: string, i: nat, sp: Span) {
    sp.lo == i || (0 < sp.lo <= |s| && !IsAlphanumeric(s[sp.lo - 1]))
  }

  predicate AllAfterBreak(s: string, i: nat, spans: seq<Span>) {
    forall k :: 0 <= k < |spans| ==> AfterBreak(s, i, spans[k])
  }

  lemma AfterBreakCons(s: string, i: nat, first: Span, next: nat, rest: seq<Span>)
    requires AfterBreak(s, i, first)
    requires AllAfterBreak(s, next, rest)
    requires rest == [] || (0 < next <= |s| && !IsAlphanumeric(s[next - 1]))
    ensures AllAfterBreak(s, i, [first] + rest)
  {
    var spans := [first] + rest;
    forall k | 0 <= k < |spans|
      ensures AfterBreak(s, i, spans[k])
    {
      if k > 0 { assert spans[k] == rest[k - 1]; }
    }
  }

  /** AllAfterBreak, the step at a word: the character after the run is swallowed. */
  lemma WordBreakStep(s: string, i: nat)
    requires i < |s| && IsAlphanumeric(s[i])
    requires AllAfterBreak(s, Min(RunEnd(s, i) + 1, |s|), SpansFrom(s, Min(RunEnd(s, i) + 1, |s|)))
    ensures AllAfterBreak(s, i, SpansFrom(s, i))
  {
    var e := RunEnd(s, i);
    RunEndFinds(s, i);
    SpansAtWord(s, i);
    AfterBreakCons(s, i, Span(i, e), Min(e + 1, |s|), SpansFrom(s, Min(e + 1, |s|)));
  }

  /** AllAfterBreak, the step at a quote: the sentence starts after the quote. */
  lemma SentenceBreakStep(s: string, i: nat)
    requires i < |s| && s[i] == Quote
    requires var next := Min(IndexFrom(s, i + 1, Quote) + 1, |s|);
      AllAfterBreak(s, next, SpansFrom(s, next))
    ensures AllAfterBreak(s, i, SpansFrom(s, i))
  {
    var e := IndexFrom(s, i + 1, Quote);
    IndexFromFinds(s, i + 1, Quote);
    SpansAtQuote(s, i);
    AfterBreakCons(s, i, Span(i + 1, e), Min(e + 1, |s|), SpansFrom(s, Min(e + 1, |s|)));
  }

  /** Every span found from `i` on starts at `i` or right after a character
      that is not alphanumeric: a skipped one, the character that ended the
      previous word, or a quote. */
  lemma {:induction false} SpansAfterBreaks(s: string, i: nat)
    requires i <= |s|
    ensures AllAfterBreak(s, i, SpansFrom(s, i))
    decreases |s| - i
  {
    if i < |s| {
      if IsAlphanumeric(s[i]) {
        SpansAfterBreaks(s, Min(RunEnd(s, i) + 1, |s|));
        WordBreakStep(s, i);
      } else if s[i] == Quote {
        SpansAfterBreaks(s, Min(IndexFrom(s, i + 1, Quote) + 1, |s|));
        SentenceBreakStep(s, i);
      } else {
        SpansAfterBreaks(s, i + 1);
        var spans := SpansFrom(s, i + 1);
        forall k | 0 <= k < |spans|
          ensures AfterBreak(s, i, spans[k])
        {
          assert AfterBreak(s, i + 1, spans[k]);
        }
      }
    }
  }

  /** Over a whole argument text, every word token is a maximal alphanumeric
      run: the characters on both sides of it, where there are any, are not
      alphanumeric. */
  lemma WordsAreMaximal(s: string)
    ensures forall k :: 0 <= k < |SpansFrom(s, 0)| && IsWordSpan(s, SpansFrom(s, 0)[k]) ==>
      var sp := SpansFrom(s, 0)[k];
      && (sp.lo > 0 ==> !IsAlphanumeric(s[sp.lo - 1]))
      && (sp.hi < |s| ==> !IsAlphanumeric(s[sp.hi]))
  {
    SpansAfterBreaks(s, 0);
  }

  /** One more span in front gives one more slice in front. */
  lemma SliceStep(s: string, first: Span, rest: seq<Span>, token: string, tokens: seq<string>)
    requires token == Slice(s, first) && tokens == Slices(s, rest)
    ensures [token] + tokens == Slices(s, [first] + rest)
  {
    SlicesCons(s, first, rest);
  }

  /** TokensAreSlices, the step at a word. */
  lemma WordSlice(s: string, i: nat)
    requires i < |s| && IsAlphanumeric(s[i])
    requires var next := Min(RunEnd(s, i) + 1, |s|);
      TokensFrom(s, next) == Slices(s, SpansFrom(s, next))
    ensures TokensFrom(s, i) == Slices(s, SpansFrom(s, i))
  {
    var e := RunEnd(s, i);
    var next := Min(e + 1, |s|);
    SpansAtWord(s, i);
    TokensAtWord(s, i);
    SliceStep(s, Span(i, e), SpansFrom(s, next), s[i..e], TokensFrom(s, next));
  }

  /** TokensAreSlices, the step at a quote. */
  lemma SentenceSlice(s: string, i: nat)
    requires i < |s| && s[i] == Quote
    requires var next := Min(IndexFrom(s, i + 1, Quote) + 1, |s|);
      TokensFrom(s, next) == Slices(s, SpansFrom(s, next))
    ensures TokensFrom(s, i) == Slices(s, SpansFrom(s, i))
  {
    var e := IndexFrom(s, i + 1, Quote);
    var next := Min(e + 1, |s|);
    SpansAtQuote(s, i);
    TokensAtQuote(s, i);
    SliceStep(s, Span(i + 1, e), SpansFrom(s, next), s[i + 1..e], TokensFrom(s, next));
  }

  /** The tokens from index `i` on are the text at SpansFrom(s, i). */
  lemma {:induction false} TokensAreSlices(s: string, i: nat)
    requires i <= |s|
    ensures TokensFrom(s, i) == Slices(s, SpansFrom(s, i))
    decreases |s| - i
  {
    if i < |s| {
      if IsAlphanumeric(s[i]) {
        TokensAreSlices(s, Min(RunEnd(s, i) + 1, |s|));
        WordSlice(s, i);
      } else if s[i] == Quote {
        TokensAreSlices(s, Min(IndexFrom(s, i + 1, Quote) + 1, |s|));
        SentenceSlice(s, i);
      } else {
        TokensAreSlices(s, i + 1);
      }
    }
  }

  /** Tokens are non-overlapping slices of the argument text, in left-to-right
      order; each is a maximal non-empty alphanumeric run, or the text strictly
      between a quote and the next quote (or the end of the text). */
  lemma TokensAreOrderedSlices(s: string)
    ensures forall k :: 0 <= k < |SpansFrom(s, 0)| ==>
      IsWordSpan(s, SpansFrom(s, 0)[k]) || IsSentenceSpan(s, SpansFrom(s, 0)[k])
    ensures forall k :: 0 <= k < |SpansFrom(s, 0)| - 1 ==> SpansFrom(s, 0)[k].hi < SpansFrom(s, 0)[k + 1].lo
    ensures |Lex(s)| == |SpansFrom(s, 0)|
    ensures forall k :: 0 <= k < |Lex(s)| ==>
      var sp := SpansFrom(s, 0)[k];
      sp.lo <= sp.hi <= |s| && Lex(s)[k] == s[sp.lo..sp.hi]
  {
    SpansWellFormed(s, 0);
    TokensAreSlices(s, 0);
    SlicesAt(s, SpansFrom(s, 0));
  }


  lemma RunEndShift(p: string, t: string, j: nat)
    requires j <= |t|
    ensures RunEnd(p + t, |p| + j) == |p| + RunEnd(t, j)
  {
    var s := p + t;
    var e := RunEnd(t, j);
    RunEndFinds(t, j);
    forall k | |p| + j <= k < |p| + e ensures IsAlphanumeric(s[k]) {
      assert s[k] == t[k - |p|];
    }
    assert |p| + e < |s| ==> s[|p| + e] == t[e];
    RunEndIs(s, |p| + j, |p| + e);
  }

  lemma IndexFromShift(p: string, t: string, j: nat, c: char)
    requires j <= |t|
    ensures IndexFrom(p + t, |p| + j, c) == |p| + IndexFrom(t, j, c)
  {
    var s := p + t;
    var e := IndexFrom(t, j, c);
    IndexFromFinds(t, j, c);
    forall k | |p| + j <= k < |p| + e ensures s[k] != c {
      assert s[k] == t[k - |p|];
    }
    assert |p| + e < |s| ==> s[|p| + e] == t[e];
    IndexFromIs(s, |p| + j, c, |p| + e);
  }

  /** A slice of `t` is the same slice of `p + t`, shifted by `|p|`. */
  lemma SliceAfter(p: string, t: string, a: nat, b: nat)
    requires a <= b <= |t|
    ensures (p + t)[|p| + a..|p| + b] == t[a..b]
  {
  }

  /** SuffixOnly, the step at a word. */
  lemma WordShifts(p: string, t: string, j: nat)
    requires j < |t| && IsAlphanumeric(t[j])
    requires var e := RunEnd(t, j);
      TokensFrom(p + t, |p| + Min(e + 1, |t|)) == TokensFrom(t, Min(e + 1, |t|))
    ensures TokensFrom(p + t, |p| + j) == TokensFrom(t, j)
  {
    var s := p + t;
    var e := RunEnd(t, j);
    RunEndShift(p, t, j);
    assert s[|p| + j] == t[j];
    TokensAtWord(s, |p| + j);
    TokensAtWord(t, j);
    SliceAfter(p, t, j, e);
  }

  /** SuffixOnly, the step at a quote. */
  lemma SentenceShifts(p: string, t: string, j: nat)
    requires j < |t| && t[j] == Quote
    requires var e := IndexFrom(t, j + 1, Quote);
      TokensFrom(p + t, |p| + Min(e + 1, |t|)) == TokensFrom(t, Min(e + 1, |t|))
    ensures TokensFrom(p + t, |p| + j) == TokensFrom(t, j)
  {
    var s := p + t;
    var e := IndexFrom(t, j + 1, Quote);
    IndexFromShift(p, t, j + 1, Quote);
    assert s[|p| + j] == t[j];
    TokensAtQuote(s, |p| + j);
    TokensAtQuote(t, j);
    SliceAfter(p, t, j + 1, e);
  }

  /** The tokens depend only on the text from the cursor on: text before it
      (such as the command word) never shows up among them. */
  lemma {:induction false} SuffixOnly(p: string, t: string, j: nat)
    requires j <= |t|
    ensures TokensFrom(p + t, |p| + j) == TokensFrom(t, j)
    decreases |t| - j
  {
    var s := p + t;
    if j < |t| {
      assert s[|p| + j] == t[j];
      if IsAlphanumeric(t[j]) {
        SuffixOnly(p, t, Min(RunEnd(t, j) + 1, |t|));
        WordShifts(p, t, j);
      } else if t[j] == Quote {
        SuffixOnly(p, t, Min(IndexFrom(t, j + 1, Quote) + 1, |t|));
        SentenceShifts(p, t, j);
      } else {
        SkipAt(t, j);
        SkipAt(s, |p| + j);
        SuffixOnly(p, t, j + 1);
      }
    }
  }

  /** A word ends at the first non-alphanumeric character, which is swallowed:
      a quote right after a word does not open a sentence. */
  lemma WordThen(w: string, c: char, t: string)
    requires IsWord(w) && !IsAlphanumeric(c)
    ensures Lex(w + [c] + t) == [w] + Lex(t)
  {
    var s := w + [c] + t;
    WordAt(s, 0, |w|);
    assert s[..|w|] == w;
    SuffixOnly(w + [c], t, 0);
  }

  /** A word at the end of the text is the last token. */
  lemma WordAtEnd(w: string)
    requires IsWord(w)
    ensures Lex(w) == [w]
  {
    WordAt(w, 0, |w|);
    assert w[0..|w|] == w;
  }

  /** A quoted sentence is the text strictly between the quotes, spaces
      included; the closing quote is swallowed. */
  lemma SentenceThen(q: string, t: string)
    requires Quote !in q
    ensures Lex([Quote] + q + [Quote] + t) == [q] + Lex(t)
  {
    var s := [Quote] + q + [Quote] + t;
    SentenceAt(s, 0, |q| + 1);
    assert s[1..|q| + 1] == q;
    SuffixOnly([Quote] + q + [Quote], t, 0);
  }

  /** An unterminated quote is not an error: the sentence runs to the end. */
  lemma UnterminatedSentence(q: string)
    requires Quote !in q
    ensures Lex([Quote] + q) == [q]
  {
    var s := [Quote] + q;
    SentenceAt(s, 0, |s|);
    assert s[1..|s|] == q;
  }

  /** Space-separated words lex to the words themselves, in order. */
  lemma {:induction false} SpaceSeparatedWords(words: seq<string>)
    requires forall k :: 0 <= k < |words| ==> IsWord(words[k])
    ensures Lex(Join(words, [Space])) == words
    decreases |words|
  {
    if |words| == 1 {
      WordAtEnd(words[0]);
    } else if |words| > 1 {
      SpaceSeparatedWords(words[1..]);
      assert Join(words, [Space]) == words[0] + [Space] + Join(words[1..], [Space]);
      WordThen(words[0], Space, Join(words[1..], [Space]));
      assert [words[0]] + words[1..] == words;
    }
  }

  /** A character that is neither alphanumeric nor a quote is dropped. */
  lemma SkipThen(c: char, t: string)
    requires !IsAlphanumeric(c) && c != Quote
    ensures Lex([c] + t) == Lex(t)
  {
    SkipAt([c] + t, 0);
    SuffixOnly([c], t, 0);
  }

  /** `lex_args` on a command word followed by a space and the arguments
      gives the tokens of the arguments alone. */
  lemma ArgsAfterCommand(command: string, rest: string)
    requires Space !in command
    ensures Lex(ArgumentText(command + [Space] + rest)) == Lex(rest)
  {
    CommandWordIgnored(command, rest);
  }

  /** No input, no tokens. */
  lemma LexEmpty()
    ensures Lex([]) == []
  {
  }

  // Token shapes the unit tests below are made of.

  lemma WordThenSentence(w: string, q: string)
    requires IsWord(w) && Quote !in q
    ensures Lex(w + [Space] + ([Quote] + q + [Quote])) == [w, q]
  {
    WordThen(w, Space, [Quote] + q + [Quote]);
    assert [Quote] + q + [Quote] + [] == [Quote] + q + [Quote];
    SentenceThen(q, []);
    LexEmpty();
  }

  lemma WordSentenceWord(w1: string, q: string, w2: string)
    requires IsWord(w1) && Quote !in q && IsWord(w2)
    ensures Lex(w1 + [Space] + ([Quote] + q + [Quote] + ([Space] + w2))) == [w1, q, w2]
  {
    WordThen(w1, Space, [Quote] + q + [Quote] + ([Space] + w2));
    SentenceThen(q, [Space] + w2);
    SkipThen(Space, w2);
    WordAtEnd(w2);
  }

  lemma TwoSentences(q1: string, q2: string)
    requires Quote !in q1 && Quote !in q2
    ensures Lex([Quote] + q1 + [Quote] + ([Space] + ([Quote] + q2 + [Quote]))) == [q1, q2]
  {
    SentenceThen(q1, [Space] + ([Quote] + q2 + [Quote]));
    SkipThen(Space, [Quote] + q2 + [Quote]);
    assert [Quote] + q2 + [Quote] + [] == [Quote] + q2 + [Quote];
    SentenceThen(q2, []);
    LexEmpty();
  }

  /** A quote right after a word is swallowed with the word and opens nothing. */
  lemma SentenceThenWords(q: string, w1: string, w2: string)
    requires Quote !in q && IsWord(w1) && IsWord(w2)
    ensures Lex([Quote] + q + [Quote] + (w1 + [Space] + (w2 + [Quote]))) == [q, w1, w2]
  {
    SentenceThen(q, w1 + [Space] + (w2 + [Quote]));
    WordThen(w1, Space, w2 + [Quote]);
    assert w2 + [Quote] + [] == w2 + [Quote];
    WordThen(w2, Quote, []);
    LexEmpty();
  }

  // The unit tests of the lexer: `lex_args` on each test message. Each
  // message is written as its command word, a space and the pieces of its
  // arguments, so that the tokens follow from the shape lemmas above.

  /** `!poll title arg1 arg2` */
  lemma BasicLexing()
    ensures Lex(ArgumentText("!poll" + [Space] + Join(["title", "arg1", "arg2"], [Space])))
         == ["title", "arg1", "arg2"]
  {
    CommandWordIgnored("!poll", Join(["title", "arg1", "arg2"], [Space]));
    SpaceSeparatedWords(["title", "arg1", "arg2"]);
  }

  /** `!poll title "arg1" arg2` */
  lemma QuotationMarks()
    ensures Lex(ArgumentText("!poll" + [Space] +
                ("title" + [Space] + ([Quote] + "arg1" + [Quote] + ([Space] + "arg2")))))
         == ["title", "arg1", "arg2"]
  {
    CommandWordIgnored("!poll", "title" + [Space] + ([Quote] + "arg1" + [Quote] + ([Space] + "arg2")));
    WordSentenceWord("title", "arg1", "arg2");
  }

  /** `!poll title "arg1 arg2"` */
  lemma MultiWordQuotations()
    ensures Lex(ArgumentText("!poll" + [Space] + ("title" + [Space] + ([Quote] + "arg1 arg2" + [Quote]))))
         == ["title", "arg1 arg2"]
  {
    CommandWordIgnored("!poll", "title" + [Space] + ([Quote] + "arg1 arg2" + [Quote]));
    WordThenSentence("title", "arg1 arg2");
  }

  /** `!poll "longer title" "arg1 arg2"` */
  lemma MultipleSentences()
    ensures Lex(ArgumentText("!poll" + [Space] +
                ([Quote] + "longer title" + [Quote] + ([Space] + ([Quote] + "arg1 arg2" + [Quote])))))
         == ["longer title", "arg1 arg2"]
  {
    CommandWordIgnored("!poll", [Quote] + "longer title" + [Quote] + ([Space] + ([Quote] + "arg1 arg2" + [Quote])));
    TwoSentences("longer title", "arg1 arg2");
  }

  /** `!poll "longer title "arg1 arg2"`: the quotes pair up differently from
      what the test expects. The first sentence keeps its trailing space, the
      second quote ends it, and the rest splits into two words, the last word
      swallowing the final quote. */
  lemma MismatchedQuotations()
    ensures Lex(ArgumentText("!poll" + [Space] +
                ([Quote] + "longer title " + [Quote] + ("arg1" + [Space] + ("arg2" + [Quote])))))
         == ["longer title ", "arg1", "arg2"]
  {
    CommandWordIgnored("!poll", [Quote] + "longer title " + [Quote] + ("arg1" + [Space] + ("arg2" + [Quote])));
    SentenceThenWords("longer title ", "arg1", "arg2");
  }

  /** So the test's expected tokens are not produced, although the lexer itself does not fail. */
  lemma MismatchedQuotationsDiffer()
    ensures Lex(ArgumentText("!poll" + [Space] +
                ([Quote] + "longer title " + [Quote] + ("arg1" + [Space] + ("arg2" + [Quote])))))
         != ["longer title", "arg1 arg2"]
  {
    MismatchedQuotations();
    assert |["longer title ", "arg1", "arg2"]| != |["longer title", "arg1 arg2"]|;
  }
}
