/**
 The source scan behind the permission catalogue: a hand-written scanner for the balanced
 argument text of a call, and the search that applies it to every call in a file.
 */
module PermissionScan {
  import opened Options

  const DECORATOR_CALL_START := "@RequirePermission("

  predicate IsQuote(c: char) {
    c == '\'' || c == '"' || c == '`'
  }

  // ---------------------------------------------------------------- the balanced scanner

  /** The scanner's memory: how many parentheses are open, and the literal it is in. */
  datatype Mode = Mode(depth: int, quote: Option<char>)

  predicate Closes(c: char, mode: Mode) {
    mode.quote.None? && c == ')' && mode.depth == 1
  }

  /** One character, given whether the character before it is a backslash. */
  function Next(c: char, escaped: bool, mode: Mode): Mode {
    if mode.quote.Some? then
      if c == mode.quote.value && !escaped then mode.(quote := None) else mode
    else if IsQuote(c) then mode.(quote := Some(c))
    else if c == '(' then mode.(depth := mode.depth + 1)
    else if c == ')' then mode.(depth := mode.depth - 1)
    else mode
  }

  predicate EscapedAt(content: string, i: nat)
    requires i <= |content|
  {
    i > 0 && content[i - 1] == '\\'
  }

  /** Position of the parenthesis that brings the depth back to zero, scanning from `i`. */
  function CloseFrom(content: string, i: nat, mode: Mode): (r: Option<nat>)
    ensures r.Some? ==> i <= r.value < |content| && (mode.depth < 1 ==> i < r.value)
    decreases |content| - i
  {
    if i >= |content| then None
    else if Closes(content[i], mode) then Some(i)
    else CloseFrom(content, i + 1, Next(content[i], EscapedAt(content, i), mode))
  }

  /** The argument text of the call whose parenthesis is at `open`; all the rest if it never closes. */
  function BalancedArgs(content: string, open: nat): (args: string)
    requires open < |content|
    ensures open + 1 + |args| <= |content|
  {
    match CloseFrom(content, open, Mode(0, None))
    case Some(i) => content[open + 1..i]
    case None => content[open + 1..]
  }

  method ExtractBalancedArgs(content: string, openParenIndex: nat) returns (args: string)
    requires openParenIndex < |content| && content[openParenIndex] == '('
    ensures args == BalancedArgs(content, openParenIndex)
  {
    var depth := 0;
    var quote: Option<char> := None;
    var i := openParenIndex;
    while i < |content|
      invariant openParenIndex <= i <= |content|
      invariant CloseFrom(content, openParenIndex, Mode(0, None)) == CloseFrom(content, i, Mode(depth, quote))
      invariant i == openParenIndex ==> quote.None? && depth == 0
    {
      var c := content[i];
      if quote.Some? {
        if c == quote.value && content[i - 1] != '\\' {
          quote := None;
        }
      } else if IsQuote(c) {
        quote := Some(c);
      } else if c == '(' {
        depth := depth + 1;
      } else if c == ')' {
        depth := depth - 1;
        if depth == 0 {
          return content[openParenIndex + 1..i];
        }
      }
      i := i + 1;
    }
    return content[openParenIndex + 1..];
  }

  // ---------------------------------------------------------------- printing argument text

  /** Argument text: plain characters, parenthesised text and closed string literals, in any nesting. */
  datatype Text =
    | End
    | Plain(c: char, rest: Text)
    | Paren(inner: Text, rest: Text)
    | Quoted(quote: char, body: string, rest: Text)

  ghost function Print(t: Text): string {
    match t
    case End => ""
    case Plain(c, rest) => [c] + Print(rest)
    case Paren(inner, rest) => "(" + Print(inner) + ")" + Print(rest)
    case Quoted(q, body, rest) => [q] + body + [q] + Print(rest)
  }

  /** A literal body: its own quote only after a backslash, and no backslash at the end. */
  ghost predicate LiteralBody(q: char, body: string) {
    && (forall i :: 0 <= i < |body| && body[i] == q ==> i > 0 && body[i - 1] == '\\')
    && (body != "" ==> body[|body| - 1] != '\\')
  }

  ghost predicate WellFormed(t: Text) {
    match t
    case End => true
    case Plain(c, rest) => !IsQuote(c) && c != '(' && c != ')' && WellFormed(rest)
    case Paren(inner, rest) => WellFormed(inner) && WellFormed(rest)
    case Quoted(q, body, rest) => IsQuote(q) && LiteralBody(q, body) && WellFormed(rest)
  }

  /** `s` stands in `content` at position `i`. */
  predicate PrintedAt(content: string, i: nat, s: string) {
    i + |s| <= |content| && forall k :: 0 <= k < |s| ==> s[k] == content[i + k]
  }

  lemma {:induction false} PrintedSplit(content: string, i: nat, a: string, b: string)
    requires PrintedAt(content, i, a + b)
    ensures PrintedAt(content, i, a) && PrintedAt(content, i + |a|, b)
  {
    assert forall k :: 0 <= k < |a| ==> a[k] == (a + b)[k];
    assert forall k :: 0 <= k < |b| ==> b[k] == (a + b)[|a| + k];
  }

  lemma {:induction false} PrintedChar(content: string, i: nat, c: char, b: string)
    requires PrintedAt(content, i, [c] + b)
    ensures i < |content| && content[i] == c && PrintedAt(content, i + 1, b)
  {
    PrintedSplit(content, i, [c], b);
    assert [c][0] == content[i + 0];
  }

  /** The length of the printed text. */
  ghost function Len(t: Text): nat {
    match t
    case End => 0
    case Plain(_, rest) => 1 + Len(rest)
    case Paren(inner, rest) => 2 + Len(inner) + Len(rest)
    case Quoted(_, body, rest) => 2 + |body| + Len(rest)
  }

  /** The text stands in `content` at `i`, read character by character. */
  ghost predicate Stands(content: string, i: nat, t: Text)
    decreases t
  {
    match t
    case End => i <= |content|
    case Plain(c, rest) => i < |content| && content[i] == c && Stands(content, i + 1, rest)
    case Paren(inner, rest) =>
      var k := i + 1 + Len(inner);
      k < |content| && content[i] == '(' && Stands(content, i + 1, inner) && content[k] == ')' &&
        Stands(content, k + 1, rest)
    case Quoted(q, body, rest) =>
      var k := i + 1 + |body|;
      k < |content| && content[i] == q && PrintedAt(content, i + 1, body) && content[k] == q &&
        Stands(content, k + 1, rest)
  }

  lemma {:induction false} LenIsLength(t: Text)
    ensures Len(t) == |Print(t)|
  {
    match t
    case End =>
    case Plain(_, rest) => LenIsLength(rest);
    case Paren(inner, rest) => LenIsLength(inner); LenIsLength(rest);
    case Quoted(_, _, rest) => LenIsLength(rest);
  }

  lemma {:induction false} PrintedStands(content: string, i: nat, t: Text)
    requires PrintedAt(content, i, Print(t))
    ensures Stands(content, i, t)
    decreases t
  {
    match t
    case End =>
    case Plain(c, rest) =>
      PrintedChar(content, i, c, Print(rest));
      PrintedStands(content, i + 1, rest);
    case Paren(inner, rest) =>
      PrintedEnclosed(content, i, '(', Print(inner), ')', Print(rest));
      LenIsLength(inner);
      PrintedStands(content, i + 1, inner);
      PrintedStands(content, i + |Print(inner)| + 2, rest);
    case Quoted(q, body, rest) =>
      PrintedEnclosed(content, i, q, body, q, Print(rest));
      PrintedStands(content, i + |body| + 2, rest);
  }

  lemma {:induction false} PrintedEnclosed(content: string, i: nat, a: char, inner: string, b: char, rest: string)
    requires PrintedAt(content, i, [a] + inner + [b] + rest)
    ensures i + 1 + |inner| < |content| && content[i] == a && PrintedAt(content, i + 1, inner)
    ensures content[i + 1 + |inner|] == b && PrintedAt(content, i + |inner| + 2, rest)
  {
    assert [a] + inner + [b] + rest == [a] + (inner + ([b] + rest));
    PrintedChar(content, i, a, inner + ([b] + rest));
    PrintedSplit(content, i + 1, inner, [b] + rest);
    PrintedChar(content, i + 1 + |inner|, b, rest);
  }

  /** The scanner does not stop between `i` and `j`, and is in mode `to` when it gets there. */
  ghost predicate Passes(content: string, i: nat, from: Mode, j: nat, to: Mode) {
    i <= j <= |content| && CloseFrom(content, i, from) == CloseFrom(content, j, to)
  }

  lemma {:induction false} PassesOne(content: string, i: nat, from: Mode)
    requires i < |content| && !Closes(content[i], from)
    ensures Passes(content, i, from, i + 1, Next(content[i], EscapedAt(content, i), from))
  {
  }

  /** Inside a literal the scanner stays inside until the closing quote. */
  lemma {:induction false} PassesBody(content: string, i: nat, k: nat, depth: int, q: char, body: string)
    requires IsQuote(q) && LiteralBody(q, body) && k <= |body|
    requires 0 < i && i + |body| < |content| && content[i - 1] == q && content[i + |body|] == q &&
             PrintedAt(content, i, body)
    ensures Passes(content, i + k, Mode(depth, Some(q)), i + |body| + 1, Mode(depth, None))
    decreases |body| - k
  {
    assert k > 0 ==> content[i + (k - 1)] == body[k - 1];
    PassesOne(content, i + k, Mode(depth, Some(q)));
    if k < |body| {
      assert content[i + k] == body[k];
      PassesBody(content, i, k + 1, depth, q, body);
    }
  }

  /** Printed text leaves the scanner at the same depth, outside any literal. */
  lemma {:induction false} PassesText(content: string, i: nat, depth: int, t: Text)
    requires WellFormed(t) && depth >= 1 && Stands(content, i, t)
    ensures Passes(content, i, Mode(depth, None), i + Len(t), Mode(depth, None))
    decreases t
  {
    match t
    case End =>
    case Plain(c, rest) =>
      PassesOne(content, i, Mode(depth, None));
      PassesText(content, i + 1, depth, rest);
    case Paren(inner, rest) =>
      PassesText(content, i + 1, depth + 1, inner);
      PassesParen(content, i, depth, inner);
      PassesText(content, i + 2 + Len(inner), depth, rest);
    case Quoted(q, body, rest) =>
      PassesLiteral(content, i, depth, q, body);
      PassesText(content, i + 2 + |body|, depth, rest);
  }

  lemma {:induction false} PassesParen(content: string, i: nat, depth: int, inner: Text)
    requires depth >= 1 && CallStands(content, i, inner)
    requires Passes(content, i + 1, Mode(depth + 1, None), i + 1 + Len(inner), Mode(depth + 1, None))
    ensures Passes(content, i, Mode(depth, None), i + 2 + Len(inner), Mode(depth, None))
  {
    PassesOne(content, i, Mode(depth, None));
    PassesOne(content, i + 1 + Len(inner), Mode(depth + 1, None));
  }

  lemma {:induction false} PassesLiteral(content: string, i: nat, depth: int, q: char, body: string)
    requires IsQuote(q) && LiteralBody(q, body) && i + 1 + |body| < |content|
    requires content[i] == q && PrintedAt(content, i + 1, body) && content[i + 1 + |body|] == q
    ensures Passes(content, i, Mode(depth, None), i + 2 + |body|, Mode(depth, None))
  {
    PassesOne(content, i, Mode(depth, None));
    PassesBody(content, i + 1, 0, depth, q, body);
  }

  /** A call whose argument text stands after its parenthesis and before a closing one. */
  ghost predicate CallStands(content: string, open: nat, t: Text) {
    var close := open + 1 + Len(t);
    close < |content| && content[open] == '(' && Stands(content, open + 1, t) && content[close] == ')'
  }

  lemma {:induction false} ClosesAfterText(content: string, open: nat, t: Text)
    requires WellFormed(t) && CallStands(content, open, t)
    ensures CloseFrom(content, open, Mode(0, None)) == Some(open + 1 + Len(t))
  {
    PassesOne(content, open, Mode(0, None));
    PassesText(content, open + 1, 1, t);
  }

  /** The scanner inverts printing, whatever surrounds the call. */
  lemma {:induction false} ArgsInvertPrint(content: string, open: nat, t: Text)
    requires WellFormed(t) && PrintedAt(content, open, "(" + Print(t) + ")")
    ensures open < |content| && BalancedArgs(content, open) == Print(t)
  {
    PrintedCallStands(content, open, t);
    ClosesAfterText(content, open, t);
    LenIsLength(t);
    assert content[open + 1..open + 1 + |Print(t)|] == Print(t);
  }

  lemma {:induction false} PrintedCallStands(content: string, open: nat, t: Text)
    requires PrintedAt(content, open, "(" + Print(t) + ")")
    ensures CallStands(content, open, t) && PrintedAt(content, open + 1, Print(t))
  {
    assert "(" + Print(t) + ")" == ['('] + (Print(t) + [')']);
    PrintedChar(content, open, '(', Print(t) + [')']);
    PrintedSplit(content, open + 1, Print(t), [')']);
    assert [')'] == [')'] + [];
    PrintedChar(content, open + 1 + |Print(t)|, ')', []);
    PrintedStands(content, open + 1, t);
    LenIsLength(t);
  }

  // ---------------------------------------------------------------- literals as the language reads them

  /** The character at `k` is escaped: the backslash before it is not itself escaped. */
  ghost predicate EscapedIn(body: string, k: nat)
    requires k <= |body|
  {
    k > 0 && body[k - 1] == '\\' && !EscapedIn(body, k - 1)
  }

  /** The body of a literal: its own quote only escaped, and no escape left open at the end. */
  ghost predicate IsBody(q: char, body: string) {
    (forall k :: 0 <= k < |body| && body[k] == q ==> EscapedIn(body, k)) && !EscapedIn(body, |body|)
  }

  predicate EndsInBackslash(body: string) {
    body != "" && body[|body| - 1] == '\\'
  }

  /** Among the bodies, those the scanner reads rightly are the ones that do not end in a backslash. */
  lemma {:induction false} LiteralBodyIff(q: char, body: string)
    requires IsBody(q, body)
    ensures LiteralBody(q, body) <==> !EndsInBackslash(body)
  {
    forall k | 0 <= k < |body| && body[k] == q ensures k > 0 && body[k - 1] == '\\' {
      assert EscapedIn(body, k);
    }
  }

  /** The mode in which the scanner arrives at `j`. */
  ghost function ModeAt(content: string, i: nat, mode: Mode, j: nat): Mode
    requires i <= j <= |content|
    decreases j - i
  {
    if i == j then mode else ModeAt(content, i + 1, Next(content[i], EscapedAt(content, i), mode), j)
  }

  /** While every own quote follows a backslash, the scanner stays inside the literal. */
  lemma {:induction false} StaysInside(content: string, i: nat, j: nat, depth: int, q: char)
    requires i <= j <= |content| && forall x :: i <= x < j && content[x] == q ==> EscapedAt(content, x)
    ensures ModeAt(content, i, Mode(depth, Some(q)), j) == Mode(depth, Some(q))
    ensures Passes(content, i, Mode(depth, Some(q)), j, Mode(depth, Some(q)))
    decreases j - i
  {
    if i < j {
      PassesOne(content, i, Mode(depth, Some(q)));
      StaysInside(content, i + 1, j, depth, q);
    }
  }

  /** A literal, quotes included, stands in `content` at `i`. */
  ghost predicate LiteralStands(content: string, i: nat, q: char, body: string) {
    && i + 1 + |body| < |content| && content[i] == q && content[i + 1 + |body|] == q
    && PrintedAt(content, i + 1, body)
  }

  lemma {:induction false} QuotesAreEscaped(content: string, i: nat, q: char, body: string, x: nat)
    requires IsBody(q, body) && LiteralStands(content, i, q, body) && i < x <= i + |body| && content[x] == q
    ensures EscapedAt(content, x)
  {
    var k := x - i - 1;
    assert body[k] == content[i + 1 + k] && EscapedIn(body, k);
    assert body[k - 1] == content[i + 1 + (k - 1)];
  }

  lemma {:induction false} InsideThrough(content: string, i: nat, depth: int, q: char, body: string, k: nat)
    requires IsQuote(q) && IsBody(q, body) && LiteralStands(content, i, q, body) && k <= |body|
    ensures ModeAt(content, i, Mode(depth, None), i + 1 + k) == Mode(depth, Some(q))
  {
    forall x | i + 1 <= x < i + 1 + k && content[x] == q ensures EscapedAt(content, x) {
      QuotesAreEscaped(content, i, q, body, x);
    }
    StaysInside(content, i + 1, i + 1 + k, depth, q);
  }

  lemma {:induction false} ModeOneMore(content: string, i: nat, mode: Mode, j: nat)
    requires i <= j < |content|
    ensures ModeAt(content, i, mode, j + 1) == Next(content[j], EscapedAt(content, j), ModeAt(content, i, mode, j))
    decreases j - i
  {
    if i < j {
      ModeOneMore(content, i + 1, Next(content[i], EscapedAt(content, i), mode), j);
    }
  }

  /** Wherever a literal stands, the scanner is inside it through its whole body, and leaves it at its
      closing quote exactly when the body does not end in a backslash. */
  lemma {:induction false} LiteralClosesIff(content: string, i: nat, depth: int, q: char, body: string, k: nat)
    requires IsQuote(q) && IsBody(q, body) && LiteralStands(content, i, q, body) && k <= |body|
    ensures ModeAt(content, i, Mode(depth, None), i + 1 + k) == Mode(depth, Some(q))
    ensures ModeAt(content, i, Mode(depth, None), i + 2 + |body|) ==
            Mode(depth, if EndsInBackslash(body) then Some(q) else None)
  {
    InsideThrough(content, i, depth, q, body, k);
    InsideThrough(content, i, depth, q, body, |body|);
    var close := i + 1 + |body|;
    ModeOneMore(content, i, Mode(depth, None), close);
    assert body != "" ==> content[close - 1] == body[|body| - 1] by {
      if body != "" { assert body[|body| - 1] == content[i + 1 + (|body| - 1)]; }
    }
  }

  ghost function LiteralCall(q: char, body: string): string {
    ['('] + ([q] + body + [q]) + [')']
  }

  /** A call whose only argument is a literal is read rightly exactly when the literal does not end in
      a backslash; otherwise the scanner runs to the end of the text. */
  lemma {:induction false} LiteralCallIff(q: char, body: string)
    requires IsQuote(q) && IsBody(q, body)
    ensures BalancedArgs(LiteralCall(q, body), 0) == [q] + body + [q] <==> !EndsInBackslash(body)
    ensures EndsInBackslash(body) ==> BalancedArgs(LiteralCall(q, body), 0) == [q] + body + [q] + [')']
  {
    if EndsInBackslash(body) {
      LiteralMissed(q, body);
    } else {
      LiteralBodyIff(q, body);
      var t := Quoted(q, body, End);
      assert Print(t) == [q] + body + [q] + "" == [q] + body + [q];
      assert "(" + Print(t) + ")" == LiteralCall(q, body);
      ArgsInvertPrint(LiteralCall(q, body), 0, t);
    }
  }

  lemma {:induction false} LiteralMissed(q: char, body: string)
    requires IsQuote(q) && IsBody(q, body) && EndsInBackslash(body)
    ensures BalancedArgs(LiteralCall(q, body), 0) == [q] + body + [q] + [')']
  {
    var c, args := LiteralCall(q, body), [q] + body + [q] + [')'];
    assert c == ['('] + args && c[1..] == args;
    LiteralCallRuns(q, body);
  }

  lemma {:induction false} LiteralCallRuns(q: char, body: string)
    requires IsQuote(q) && IsBody(q, body) && EndsInBackslash(body)
    ensures CloseFrom(LiteralCall(q, body), 0, Mode(0, None)) == None
  {
    var c := LiteralCall(q, body);
    LiteralCallStands(q, body);
    forall x | 2 <= x < |c| && c[x] == q ensures EscapedAt(c, x) {
      LiteralCallEscapes(q, body, x);
    }
    NeverCloses(c, q);
  }

  lemma {:induction false} LiteralCallEscapes(q: char, body: string, x: nat)
    requires IsQuote(q) && IsBody(q, body) && EndsInBackslash(body)
    requires 2 <= x < |LiteralCall(q, body)| && LiteralCall(q, body)[x] == q
    ensures EscapedAt(LiteralCall(q, body), x)
  {
    LiteralCallStands(q, body);
    if x < 2 + |body| {
      QuotesAreEscaped(LiteralCall(q, body), 1, q, body, x);
    }
  }

  /** A call whose text opens with a literal that never ends is not closed. */
  lemma {:induction false} NeverCloses(c: string, q: char)
    requires |c| >= 2 && c[0] == '(' && c[1] == q && IsQuote(q)
    requires forall x :: 2 <= x < |c| && c[x] == q ==> EscapedAt(c, x)
    ensures CloseFrom(c, 0, Mode(0, None)) == None
  {
    PassesOne(c, 0, Mode(0, None));
    PassesOne(c, 1, Mode(1, None));
    StaysInside(c, 2, |c|, 1, q);
  }

  lemma {:induction false} LiteralCallStands(q: char, body: string)
    ensures LiteralStands(LiteralCall(q, body), 1, q, body) && |LiteralCall(q, body)| == |body| + 4
    ensures EndsInBackslash(body) ==> EscapedAt(LiteralCall(q, body), 2 + |body|)
    ensures LiteralCall(q, body)[0] == '(' && LiteralCall(q, body)[3 + |body|] == ')'
  {
    var c := LiteralCall(q, body);
    assert forall k :: 0 <= k < |body| ==> body[k] == c[2 + k];
  }

  /** For example the literal that holds one escaped backslash. */
  lemma {:induction false} EscapedBackslashIsMissed()
    ensures BalancedArgs("('\\\\')", 0) == "'\\\\')"
  {
    var body := "\\\\";
    assert EscapedIn(body, 1) && !EscapedIn(body, 2);
    LiteralMissed('\'', body);
    assert LiteralCall('\'', body) == "('\\\\')";
  }

  // ---------------------------------------------------------------- the search

  /** `indexOf`: the first occurrence at or after `from`. */
  function IndexOf(content: string, m: string, from: nat): (r: Option<nat>)
    ensures r.Some? ==> from <= r.value && r.value + |m| <= |content|
    decreases |content| - from
  {
    if from + |m| > |content| then None
    else if PrintedAt(content, from, m) then Some(from)
    else IndexOf(content, m, from + 1)
  }

  /** The result is an occurrence. */
  lemma {:induction false} IndexOfFinds(content: string, m: string, from: nat)
    ensures IndexOf(content, m, from).Some? ==> PrintedAt(content, IndexOf(content, m, from).value, m)
    decreases |content| - from
  {
    if from + |m| <= |content| && !PrintedAt(content, from, m) && from < |content| {
      IndexOfFinds(content, m, from + 1);
    }
  }

  /** Nothing before the result is an occurrence. */
  lemma {:induction false} IndexOfIsFirst(content: string, m: string, from: nat, k: nat)
    requires from <= k && PrintedAt(content, k, m)
    ensures IndexOf(content, m, from).Some? && IndexOf(content, m, from).value <= k
    decreases |content| - from
  {
    if !PrintedAt(content, from, m) {
      IndexOfIsFirst(content, m, from + 1, k);
    }
  }

  /** What the search relies on: the marker ends in the parenthesis and its first character occurs once. */
  ghost predicate IsMarker(m: string) {
    |m| > 1 && m[|m| - 1] == '(' && forall k :: 0 < k < |m| ==> m[k] != m[0]
  }

  lemma {:induction false} DecoratorIsMarker()
    ensures IsMarker(DECORATOR_CALL_START)
  {
  }

  /** A call that was found: its argument text, and where the search goes on. */
  datatype Hit = Hit(args: string, next: nat)

  /** The next call at or after `from`. The search goes on after it, also when it is unterminated. */
  function NextCall(content: string, m: string, from: nat): (r: Option<Hit>)
    requires m != ""
    ensures r.Some? ==> from < |content| && from < r.value.next
  {
    match IndexOf(content, m, from)
    case None => None
    case Some(start) =>
      var args := BalancedArgs(content, start + |m| - 1);
      Some(Hit(args, start + |m| - 1 + |args| + 2))
  }

  /** The argument texts of the calls found from `from` on. Each turn starts after the previous call,
      so the search ends on every input. */
  function CallsFrom(content: string, m: string, from: nat): seq<string>
    requires m != ""
    decreases |content| - from
  {
    match NextCall(content, m, from)
    case None => []
    case Some(hit) => [hit.args] + CallsFrom(content, m, hit.next)
  }

  lemma {:induction false} MarkerOpens(content: string, m: string, i: nat)
    requires IsMarker(m) && PrintedAt(content, i, m)
    ensures i + |m| <= |content| && content[i] == m[0] && content[i + |m| - 1] == '('
  {
    assert m[0] == content[i + 0] && m[|m| - 1] == content[i + (|m| - 1)];
  }

  lemma {:induction false} MoveOne(done: seq<string>, one: string, rest: seq<string>)
    ensures done + ([one] + rest) == (done + [one]) + rest
  {
  }

  /** One turn of the search: the next marker, the text of its call, and where to go on. */
  method FindCall(content: string, m: string, searchFrom: nat) returns (r: Option<Hit>)
    requires IsMarker(m)
    ensures r == NextCall(content, m, searchFrom)
  {
    var callStart := IndexOf(content, m, searchFrom);
    if callStart.None? {
      return None;
    }
    var openParenIndex := callStart.value + |m| - 1;
    IndexOfFinds(content, m, searchFrom);
    MarkerOpens(content, m, callStart.value);
    var args := ExtractBalancedArgs(content, openParenIndex);
    return Some(Hit(args, openParenIndex + |args| + 2));
  }

  lemma {:induction false} CallsStep(content: string, m: string, from: nat, hit: Hit)
    requires m != "" && NextCall(content, m, from) == Some(hit)
    ensures CallsFrom(content, m, from) == [hit.args] + CallsFrom(content, m, hit.next)
    ensures from < |content| && from < hit.next
  {
  }

  /** The search loop of the scan, over one file. */
  method ScanCalls(content: string, m: string) returns (calls: seq<string>)
    requires IsMarker(m)
    ensures calls == CallsFrom(content, m, 0)
  {
    calls := [];
    var searchFrom := 0;
    ghost var rest := CallsFrom(content, m, 0);
    while true
      invariant rest == CallsFrom(content, m, searchFrom)
      invariant calls + rest == CallsFrom(content, m, 0)
      decreases |content| - searchFrom
    {
      var hit := FindCall(content, m, searchFrom);
      if hit.None? {
        return;
      }
      CallsStep(content, m, searchFrom, hit.value);
      rest := CallsFrom(content, m, hit.value.next);
      MoveOne(calls, hit.value.args, rest);
      calls := calls + [hit.value.args];
      searchFrom := hit.value.next;
    }
  }

  /** A source file: stretches without a decorator call, and the calls between them. */
  datatype File = Tail(gap: string) | Decorated(gap: string, args: Text, rest: File)

  ghost function PrintFile(m: string, f: File): string {
    match f
    case Tail(gap) => gap
    case Decorated(gap, args, rest) => gap + (m + (Print(args) + ([')'] + PrintFile(m, rest))))
  }

  ghost predicate GapsAreClean(m: string, f: File) {
    && (forall k :: !PrintedAt(f.gap, k, m))
    && (f.Decorated? ==> WellFormed(f.args) && GapsAreClean(m, f.rest))
  }

  ghost function ArgsOf(f: File): seq<string> {
    if f.Tail? then [] else [Print(f.args)] + ArgsOf(f.rest)
  }

  /** An occurrence of the marker cannot straddle the end of a clean gap. */
  lemma {:induction false} NoStraddle(content: string, m: string, i: nat, gap: string, k: nat)
    requires IsMarker(m) && PrintedAt(content, i, gap) && i <= k < i + |gap|
    requires forall j :: !PrintedAt(gap, j, m)
    requires i + |gap| < |content| ==> content[i + |gap|] == m[0]
    ensures !PrintedAt(content, k, m)
  {
    if k + |m| <= i + |gap| {
      assert !PrintedAt(gap, k - i, m);
      var j :| 0 <= j < |m| && m[j] != gap[k - i + j];
      assert gap[k - i + j] == content[i + (k - i + j)];
    } else if k + |m| <= |content| {
      var at := i + |gap| - k;
      assert content[k + at] == m[0] && m[at] != m[0];
    }
  }

  /** The file stands in `content` from `i` to the end. */
  ghost predicate FileStands(content: string, m: string, i: nat, f: File)
    decreases f
  {
    && PrintedAt(content, i, f.gap)
    && match f
       case Tail(gap) => i + |gap| == |content|
       case Decorated(gap, args, rest) =>
         var next := i + |gap| + |m| + |Print(args)| + 1;
         && m != "" && PrintedAt(content, i + |gap|, m)
         && PrintedAt(content, i + |gap| + |m| - 1, "(" + Print(args) + ")")
         && FileStands(content, m, next, rest)
  }

  lemma {:induction false} PrintedFileStands(content: string, m: string, i: nat, f: File)
    requires IsMarker(m) && PrintedAt(content, i, PrintFile(m, f)) && i + |PrintFile(m, f)| == |content|
    ensures FileStands(content, m, i, f)
    decreases f
  {
    if f.Decorated? {
      var p, rest := Print(f.args), PrintFile(m, f.rest);
      var start := i + |f.gap|;
      PrintedSplit(content, i, f.gap, m + (p + ([')'] + rest)));
      PrintedSplit(content, start, m, p + ([')'] + rest));
      MarkerOpens(content, m, start);
      PrintedSplit(content, start + |m|, p, [')'] + rest);
      PrintedChar(content, start + |m| + |p|, ')', rest);
      PrintedCall(content, start + |m| - 1, p);
      PrintedFileStands(content, m, start + |m| + |p| + 1, f.rest);
    }
  }

  lemma {:induction false} PrintedCall(content: string, open: nat, p: string)
    requires open + 1 + |p| < |content| && content[open] == '(' && content[open + 1 + |p|] == ')'
    requires PrintedAt(content, open + 1, p)
    ensures PrintedAt(content, open, "(" + p + ")")
  {
    var s := "(" + p + ")";
    forall k | 0 <= k < |s| ensures s[k] == content[open + k] {
      if 0 < k <= |p| {
        assert p[k - 1] == content[open + 1 + (k - 1)];
      }
    }
  }

  /** The first marker of a file is that of its first call. */
  lemma {:induction false} FindsFirst(content: string, m: string, i: nat, f: File)
    requires IsMarker(m) && GapsAreClean(m, f) && FileStands(content, m, i, f)
    ensures IndexOf(content, m, i) == if f.Tail? then None else Some(i + |f.gap|)
  {
    var found := IndexOf(content, m, i);
    if f.Decorated? {
      MarkerOpens(content, m, i + |f.gap|);
      IndexOfIsFirst(content, m, i, i + |f.gap|);
    }
    IndexOfFinds(content, m, i);
    if found.Some? && found.value < i + |f.gap| {
      NoStraddle(content, m, i, f.gap, found.value);
    }
  }

  lemma {:induction false} FirstCall(content: string, m: string, i: nat, f: File)
    requires GapsAreClean(m, f) && FileStands(content, m, i, f) && f.Decorated?
    ensures m != "" && WellFormed(f.args) && PrintedAt(content, i + |f.gap| + |m| - 1, "(" + Print(f.args) + ")")
    ensures GapsAreClean(m, f.rest) && FileStands(content, m, i + |f.gap| + |m| + |Print(f.args)| + 1, f.rest)
  {
  }

  /** What the search from `i` on meets. */
  datatype Found = NoMore | Call(hit: Hit, rest: Found)

  ghost function CallsOf(m: string, i: nat, f: File): Found
    decreases f
  {
    match f
    case Tail(_) => NoMore
    case Decorated(gap, args, rest) =>
      var next := i + |gap| + |m| + |Print(args)| + 1;
      Call(Hit(Print(args), next), CallsOf(m, next, rest))
  }

  ghost function Texts(calls: Found): seq<string> {
    match calls
    case NoMore => []
    case Call(hit, rest) => [hit.args] + Texts(rest)
  }

  ghost predicate Meets(search: int -> Option<Hit>, i: nat, calls: Found)
    decreases calls
  {
    match calls
    case NoMore => search(i) == None
    case Call(hit, rest) => search(i) == Some(hit) && Meets(search, hit.next, rest)
  }

  ghost function Search(content: string, m: string): int -> Option<Hit>
    requires m != ""
  {
    (from: int) => if from >= 0 then NextCall(content, m, from) else None
  }

  lemma {:induction false} FirstHit(content: string, m: string, i: nat, f: File)
    requires IsMarker(m) && GapsAreClean(m, f) && FileStands(content, m, i, f) && f.Decorated?
    ensures NextCall(content, m, i) == Some(Hit(Print(f.args), i + |f.gap| + |m| + |Print(f.args)| + 1))
  {
    FindsFirst(content, m, i, f);
    FirstCall(content, m, i, f);
    ArgsInvertPrint(content, i + |f.gap| + |m| - 1, f.args);
  }

  lemma {:induction false} FileMeets(content: string, m: string, i: nat, f: File)
    requires IsMarker(m) && GapsAreClean(m, f) && FileStands(content, m, i, f)
    ensures Meets(Search(content, m), i, CallsOf(m, i, f))
    decreases f
  {
    if f.Decorated? {
      var next := i + |f.gap| + |m| + |Print(f.args)| + 1;
      FirstHit(content, m, i, f);
      FirstCall(content, m, i, f);
      FileMeets(content, m, next, f.rest);
      MeetsFirst(content, m, i, Hit(Print(f.args), next), CallsOf(m, next, f.rest));
    } else {
      FindsFirst(content, m, i, f);
    }
  }

  lemma {:induction false} MeetsFirst(content: string, m: string, i: nat, hit: Hit, rest: Found)
    requires m != "" && NextCall(content, m, i) == Some(hit) && Meets(Search(content, m), hit.next, rest)
    ensures Meets(Search(content, m), i, Call(hit, rest))
  {
    assert Search(content, m)(i) == NextCall(content, m, i);
  }

  lemma {:induction false} MeetsCalls(content: string, m: string, i: nat, calls: Found)
    requires m != "" && Meets(Search(content, m), i, calls)
    ensures CallsFrom(content, m, i) == Texts(calls)
    decreases calls
  {
    assert Search(content, m)(i) == NextCall(content, m, i);
    if calls.Call? {
      MeetsCalls(content, m, calls.hit.next, calls.rest);
    }
  }

  lemma {:induction false} TextsAreArgs(m: string, i: nat, f: File)
    ensures Texts(CallsOf(m, i, f)) == ArgsOf(f)
    decreases f
  {
    if f.Decorated? {
      TextsAreArgs(m, i + |f.gap| + |m| + |Print(f.args)| + 1, f.rest);
    }
  }

  /** Scanning a file finds every call and nothing else, each with exactly its text. */
  lemma {:induction false} ScanFindsAll(content: string, m: string, i: nat, f: File)
    requires IsMarker(m) && GapsAreClean(m, f) && FileStands(content, m, i, f)
    ensures CallsFrom(content, m, i) == ArgsOf(f)
  {
    FileMeets(content, m, i, f);
    MeetsCalls(content, m, i, CallsOf(m, i, f));
    TextsAreArgs(m, i, f);
  }

  /** Scanning inverts printing for the decorator of the permission catalogue. */
  lemma {:induction false} FileRoundTrip(f: File)
    requires GapsAreClean(DECORATOR_CALL_START, f)
    ensures CallsFrom(PrintFile(DECORATOR_CALL_START, f), DECORATOR_CALL_START, 0) == ArgsOf(f)
  {
    DecoratorIsMarker();
    PrintedFileStands(PrintFile(DECORATOR_CALL_START, f), DECORATOR_CALL_START, 0, f);
    ScanFindsAll(PrintFile(DECORATOR_CALL_START, f), DECORATOR_CALL_START, 0, f);
  }
}
