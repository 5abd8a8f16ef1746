/** SQL text as src/complete.c sees it, said by the shape of its lexemes and without a scanner. */
module SqlLexemes {
  import opened CBasics
  import opened Statements
  import opened SqlTokens

  // ---------- The shapes

  const KEYWORDS: seq<(string, Token)> := [("create", Create), ("trigger", Trigger), ("temp", Temp),
    ("temporary", Temp), ("end", End), ("explain", Explain)]

  /** The word is one of the keywords up to case, or none of them. */
  ghost predicate Spells(w: string, t: Token) {
    if t == Other then forall k :: 0 <= k < |KEYWORDS| ==> !SameButCase(w, KEYWORDS[k].0)
    else exists k :: 0 <= k < |KEYWORDS| && SameButCase(w, KEYWORDS[k].0) && t == KEYWORDS[k].1
  }

  ghost predicate IsWord(w: string, rest: string) {
    && w != "" && (forall k :: 0 <= k < |w| ==> IdChar(w[k]))
    && (rest == "" || !IdChar(rest[0]))
  }

  /** Two characters open it, star and slash close it, and do not occur inside. */
  ghost predicate BlockComment(w: string) {
    && |w| >= 4 && w[0] == '/' && w[1] == '*' && w[|w|-2] == '*' && w[|w|-1] == '/'
    && forall k :: 2 <= k < |w| - 2 ==> !(w[k] == '*' && w[k+1] == '/')
  }

  /** Two dashes and the rest of the line; the last line of the text may lack its newline. */
  ghost predicate LineComment(w: string, rest: string) {
    && |w| >= 2 && w[0] == '-' && w[1] == '-'
    && (forall k :: 2 <= k < |w| - 1 ==> w[k] != '\n')
    && (if |w| >= 3 && w[|w|-1] == '\n' then true else rest == "")
  }

  /** The character that closes what c opens. */
  function Closer(c: char): char {
    if c == '[' then ']' else c
  }

  const QUOTES: set<char> := {'[', '`', '"', '\''}

  ghost predicate Quoted(w: string) {
    && |w| >= 2 && w[0] in QUOTES && w[|w|-1] == Closer(w[0])
    && forall k :: 1 <= k < |w| - 1 ==> w[k] != Closer(w[0])
  }

  /** A character that stands for itself: it opens neither a comment, nor a quote, nor a word. */
  ghost predicate Single(w: string, rest: string) {
    && |w| == 1 && w[0] != ';' && !White(w[0]) && w[0] !in QUOTES && !IdChar(w[0])
    && (rest != "" ==> !(w[0] == '/' && rest[0] == '*') && !(w[0] == '-' && rest[0] == '-'))
  }

  /** In front of rest, w is one lexeme that counts as token t. */
  ghost predicate Lexeme(w: string, t: Token, rest: string) {
    || (w == ";" && t == Semi)
    || (|w| == 1 && White(w[0]) && t == Ws)
    || (BlockComment(w) && t == Ws)
    || (LineComment(w, rest) && t == Ws)
    || (Quoted(w) && t == Other)
    || (IsWord(w, rest) && Spells(w, t))
    || (Single(w, rest) && t == Other)
  }

  /** The text starts with a comment or quote that is never closed. */
  ghost predicate Open(s: string) {
    || (|s| >= 2 && s[0] == '/' && s[1] == '*' && forall k :: 2 <= k < |s| - 1 ==> !(s[k] == '*' && s[k+1] == '/'))
    || (s != "" && s[0] in QUOTES && forall k :: 1 <= k < |s| ==> s[k] != Closer(s[0]))
  }

  /** The text is a sequence of lexemes, and the ones that are not white space are the tokens ts. */
  ghost predicate Lexed(s: string, ts: seq<Token>)
    decreases |s|
  {
    if s == "" then ts == []
    else
      exists n, t | 0 < n <= |s| && Lexeme(s[..n], t, s[n..]) ::
        if t == Ws then Lexed(s[n..], ts) else ts != [] && ts[0] == t && Lexed(s[n..], ts[1..])
  }

  /** The text is a sequence of lexemes followed by something that is never closed. */
  ghost predicate Torn(s: string)
    decreases |s|
  {
    s != "" && (Open(s) || exists n, t | 0 < n <= |s| && Lexeme(s[..n], t, s[n..]) :: Torn(s[n..]))
  }

  /** Nothing is left open, and the tokens are one or more statements. */
  ghost predicate IsComplete(s: string) {
    exists ts :: Lexed(s, ts) && Script(ts)
  }

  // ---------- The scanner finds exactly these

  lemma KeywordExactly(w: string, t: Token)
    ensures Keyword(w) == t <==> Spells(w, t)
  {
    forall k | 0 <= k < |KEYWORDS| ensures SameButCase(w, KEYWORDS[k].0) <==> Lower(w) == KEYWORDS[k].0 {
      LowerExactly(w, KEYWORDS[k].0);
      assert Lower(KEYWORDS[k].0) == KEYWORDS[k].0;
    }
    hide Lower, SameButCase;
    assert KEYWORDS[0].0 == "create" && KEYWORDS[1].0 == "trigger" && KEYWORDS[2].0 == "temp"
      && KEYWORDS[3].0 == "temporary" && KEYWORDS[4].0 == "end" && KEYWORDS[5].0 == "explain";
  }

  /** A comment opener: the lexeme ends behind the first closer. */
  lemma BlockCommentExactly(s: string, i: nat, n: nat)
    requires 0 < n && i + n <= |s| && i + 1 < |s| && s[i] == '/' && s[i+1] == '*'
    ensures var e := CommentEnd(s, i + 2); BlockComment(s[i..i+n]) <==> e < |s| && n == e + 2 - i
  {
    hide CommentEnd;
    var e, w := CommentEnd(s, i + 2), s[i..i+n];
    forall k | 0 <= k < n ensures w[k] == s[i+k] {}
    if BlockComment(w) {
      assert StarSlash(s, i + n - 2);
      forall k | i + 2 <= k < i + n - 2 ensures !StarSlash(s, k) { assert !(w[k-i] == '*' && w[k-i+1] == '/'); }
    }
    if e < |s| && n == e + 2 - i {
      forall k | 2 <= k < n - 2 ensures !(w[k] == '*' && w[k+1] == '/') { assert !StarSlash(s, i + k); }
    }
  }

  lemma LineCommentExactly(s: string, i: nat, n: nat)
    requires 0 < n && i + n <= |s| && i + 1 < |s| && s[i] == '-' && s[i+1] == '-'
    ensures var e := IndexOf(s, '\n', i + 2);
      LineComment(s[i..i+n], s[i+n..]) <==> n == (if e < |s| then e + 1 else e) - i
  {
    hide IndexOf;
    var e, w := IndexOf(s, '\n', i + 2), s[i..i+n];
    forall k | 0 <= k < n ensures w[k] == s[i+k] {}
    if LineComment(w, s[i+n..]) {
      forall k | i + 2 <= k < i + n - 1 ensures s[k] != '\n' { assert w[k-i] != '\n'; }
      assert s[i+n-1] == w[n-1];
    }
    if n == (if e < |s| then e + 1 else e) - i {
      forall k | 2 <= k < n - 1 ensures w[k] != '\n' { assert s[i+k] != '\n'; }
      assert w[n-1] == s[i+n-1];
    }
  }

  lemma QuotedExactly(s: string, i: nat, n: nat)
    requires 0 < n && i + n <= |s| && s[i] in QUOTES
    ensures var e := IndexOf(s, Closer(s[i]), i + 1); Quoted(s[i..i+n]) <==> e < |s| && n == e + 1 - i
  {
    hide IndexOf;
    var e, w, c := IndexOf(s, Closer(s[i]), i + 1), s[i..i+n], Closer(s[i]);
    forall k | 0 <= k < n ensures w[k] == s[i+k] {}
    if Quoted(w) {
      forall k | i + 1 <= k < i + n - 1 ensures s[k] != c { assert w[k-i] != c; }
      assert s[i+n-1] == w[n-1] == c;
    }
    if e < |s| && n == e + 1 - i {
      forall k | 1 <= k < n - 1 ensures w[k] != c { assert s[i+k] != c; }
      assert w[n-1] == s[e];
    }
  }

  lemma WordExactly(s: string, i: nat, n: nat)
    requires 0 < n && i + n <= |s| && IdChar(s[i])
    ensures IsWord(s[i..i+n], s[i+n..]) <==> n == WordEnd(s, i) - i
  {
    hide WordEnd, IdChar;
    var e, w := WordEnd(s, i), s[i..i+n];
    forall k | 0 <= k < n ensures w[k] == s[i+k] {}
    if IsWord(w, s[i+n..]) {
      forall k | i <= k < i + n ensures IdChar(s[k]) { assert IdChar(w[k-i]); }
      assert i + n < |s| ==> s[i+n..][0] == s[i+n];
    }
    if n == e - i {
      forall k | 0 <= k < n ensures IdChar(w[k]) { assert IdChar(s[i+k]); }
      assert i + n < |s| ==> s[i+n..][0] == s[i+n];
    }
  }

  predicate Comment(s: string, i: nat)
    requires i < |s|
  {
    i + 1 < |s| && ((s[i] == '/' && s[i+1] == '*') || (s[i] == '-' && s[i+1] == '-'))
  }

  /** Which shapes a lexeme can have is decided by its first character, or two. */
  lemma ShapeByStart(s: string, i: nat, n: nat, t: Token)
    requires 0 < n && i + n <= |s|
    ensures var c, w, rest := s[i], s[i..i+n], s[i+n..]; Lexeme(w, t, rest) <==>
      if c == ';' then n == 1 && t == Semi
      else if White(c) then n == 1 && t == Ws
      else if c in QUOTES then Quoted(w) && t == Other
      else if IdChar(c) then IsWord(w, rest) && Spells(w, t)
      else if Comment(s, i) then (if c == '/' then BlockComment(w) else LineComment(w, rest)) && t == Ws
      else n == 1 && t == Other
  {
    var c, w, rest := s[i], s[i..i+n], s[i+n..];
    assert w[0] == c && (n > 1 ==> w[1] == s[i+1]) && (i + n < |s| ==> rest[0] == s[i+n]);
    hide Spells;
  }

  lemma QuotedFirst(s: string, i: nat, n: nat, t: Token)
    requires 0 < n && i + n <= |s| && s[i] in QUOTES
    ensures First(s, i) == Piece(t, i + n) <==> Lexeme(s[i..i+n], t, s[i+n..])
  {
    ShapeByStart(s, i, n, t);
    QuotedExactly(s, i, n);
    hide Lexeme, Quoted, IsWord, BlockComment, LineComment, IndexOf, CommentEnd, WordEnd, Spells, Keyword;
  }

  lemma WordFirst(s: string, i: nat, n: nat, t: Token)
    requires 0 < n && i + n <= |s| && IdChar(s[i])
    ensures First(s, i) == Piece(t, i + n) <==> Lexeme(s[i..i+n], t, s[i+n..])
  {
    ShapeByStart(s, i, n, t);
    WordExactly(s, i, n);
    KeywordExactly(s[i..i+n], t);
    hide Lexeme, Quoted, IsWord, BlockComment, LineComment, IndexOf, CommentEnd, WordEnd, Spells, Keyword;
  }

  lemma CommentFirst(s: string, i: nat, n: nat, t: Token)
    requires 0 < n && i + n <= |s| && Comment(s, i)
    ensures First(s, i) == Piece(t, i + n) <==> Lexeme(s[i..i+n], t, s[i+n..])
  {
    ShapeByStart(s, i, n, t);
    if s[i] == '/' { BlockCommentExactly(s, i, n); } else { LineCommentExactly(s, i, n); }
    hide Lexeme, Quoted, IsWord, BlockComment, LineComment, IndexOf, CommentEnd, WordEnd, Spells, Keyword;
  }

  lemma PlainFirst(s: string, i: nat, n: nat, t: Token)
    requires 0 < n && i + n <= |s| && s[i] !in QUOTES && !IdChar(s[i]) && !Comment(s, i)
    ensures First(s, i) == Piece(t, i + n) <==> Lexeme(s[i..i+n], t, s[i+n..])
  {
    ShapeByStart(s, i, n, t);
    hide Lexeme, Quoted, IsWord, BlockComment, LineComment, IndexOf, CommentEnd, WordEnd, Spells, Keyword;
  }

  /** The scanner's first token is the lexeme at the position. */
  lemma FirstExactly(s: string, i: nat, n: nat, t: Token)
    requires 0 < n && i + n <= |s|
    ensures First(s, i) == Piece(t, i + n) <==> Lexeme(s[i..i+n], t, s[i+n..])
  {
    hide First, Lexeme, IdChar, Comment;
    if s[i] in QUOTES {
      QuotedFirst(s, i, n, t);
    } else if IdChar(s[i]) {
      WordFirst(s, i, n, t);
    } else if Comment(s, i) {
      CommentFirst(s, i, n, t);
    } else {
      PlainFirst(s, i, n, t);
    }
  }

  /** It is missing exactly if the lexeme is never closed. */
  lemma UnclosedExactly(s: string, i: nat)
    requires i < |s|
    ensures First(s, i).Unclosed? <==> Open(s[i..])
  {
    var c, w := s[i], s[i..];
    forall k | 0 <= k < |w| ensures w[k] == s[i+k] {}
    if c in QUOTES {
      var e := IndexOf(s, Closer(c), i + 1);
      if e < |s| { assert w[e-i] == Closer(c); }
    } else if c == '/' && At(s, i + 1) == '*' && i + 1 < |s| {
      var e := CommentEnd(s, i + 2);
      if e < |s| { assert StarSlash(s, e) && w[e-i] == '*' && w[e-i+1] == '/'; }
      if e == |s| {
        forall k | 2 <= k < |w| - 1 ensures !(w[k] == '*' && w[k+1] == '/') { assert !StarSlash(s, i + k); }
      }
    }
    hide IndexOf, CommentEnd, WordEnd, Keyword;
  }

  /** No text has two first lexemes. */
  lemma LexemeIsFirst(s: string, i: nat, n: nat, t: Token)
    requires 0 < n && i + n <= |s| && Lexeme(s[i..][..n], t, s[i..][n..])
    ensures First(s, i) == Piece(t, i + n)
  {
    assert s[i..][..n] == s[i..i+n] && s[i..][n..] == s[i+n..];
    FirstExactly(s, i, n, t);
  }

  lemma FirstIsLexeme(s: string, i: nat) returns (n: nat)
    requires i < |s| && First(s, i).Piece?
    ensures n == First(s, i).next - i && Lexeme(s[i..][..n], First(s, i).token, s[i..][n..]) && s[i..][n..] == s[i+n..]
  {
    n := First(s, i).next - i;
    assert s[i..][..n] == s[i..i+n];
    FirstExactly(s, i, n, First(s, i).token);
  }

  lemma LexedStep(s: string, n: nat, t: Token, ts: seq<Token>)
    requires 0 < n <= |s| && Lexeme(s[..n], t, s[n..])
    requires forall m, u :: 0 < m <= |s| && Lexeme(s[..m], u, s[m..]) ==> m == n && u == t
    ensures Lexed(s, ts) <==>
      if t == Ws then Lexed(s[n..], ts) else ts != [] && ts[0] == t && Lexed(s[n..], ts[1..])
  {
    hide Lexeme;
  }

  lemma WhiteSkipped(rest: Scan)
    ensures Prepend(Ws, rest) == rest
  {
  }

  lemma SomethingRead(t: Token, rest: Scan)
    requires t != Ws
    ensures Prepend(t, rest) != Scan([])
  {
  }

  lemma PrependExactly(t: Token, rest: Scan, ts: seq<Token>)
    requires t != Ws && ts != []
    ensures Prepend(t, rest) == Scan(ts) <==> ts[0] == t && rest == Scan(ts[1..])
  {
    assert [ts[0]] + ts[1..] == ts;
    if rest.Scan? { assert ([t] + rest.tokens)[1..] == rest.tokens; }
  }

  lemma EmptyLexed(ts: seq<Token>)
    ensures Lexed("", ts) <==> ts == []
  {
  }

  lemma NotLexed(s: string, ts: seq<Token>)
    requires s != "" && forall m, u :: 0 < m <= |s| ==> !Lexeme(s[..m], u, s[m..])
    ensures !Lexed(s, ts)
  {
    hide Lexeme;
  }

  /** What the first token decides about the rest. */
  lemma LexedAt(s: string, i: nat, ts: seq<Token>)
    requires i < |s|
    ensures match First(s, i)
      case Unclosed => !Lexed(s[i..], ts)
      case Piece(t, next) => Lexed(s[i..], ts) <==>
        if t == Ws then Lexed(s[next..], ts) else ts != [] && ts[0] == t && Lexed(s[next..], ts[1..])
  {
    hide First, Lexeme, Lexed;
    forall n, t | 0 < n <= |s| - i && Lexeme(s[i..][..n], t, s[i..][n..]) ensures First(s, i) == Piece(t, i + n) {
      LexemeIsFirst(s, i, n, t);
    }
    if First(s, i).Piece? {
      var n := FirstIsLexeme(s, i);
      LexedStep(s[i..], n, First(s, i).token, ts);
    } else {
      NotLexed(s[i..], ts);
    }
  }

  /** The scanner reads ts exactly if the text is a sequence of lexemes with these tokens. */
  lemma {:induction false} TokensExactly(s: string, i: nat, ts: seq<Token>)
    requires i <= |s|
    ensures Tokens(s, i) == Scan(ts) <==> Lexed(s[i..], ts)
    decreases |s| - i
  {
    if i == |s| {
      EmptyLexed(ts);
      assert s[i..] == "";
      return;
    }
    LexedAt(s, i, ts);
    hide First, Lexed, Prepend;
    if First(s, i).Piece? {
      var t, next := First(s, i).token, First(s, i).next;
      if t == Ws {
        TokensExactly(s, next, ts);
        WhiteSkipped(Tokens(s, next));
      } else if ts != [] {
        TokensExactly(s, next, ts[1..]);
        PrependExactly(t, Tokens(s, next), ts);
      } else {
        SomethingRead(t, Tokens(s, next));
      }
    }
  }

  /** It breaks off exactly if lexemes are followed by something that is never closed. */
  lemma {:induction false} BrokenExactly(s: string, i: nat)
    requires i <= |s|
    ensures Tokens(s, i).Broken? <==> Torn(s[i..])
    decreases |s| - i
  {
    hide First, Torn;
    if i == |s| {
      NothingTorn();
      assert s[i..] == "";
      return;
    }
    TornAt(s, i);
    if First(s, i).Piece? {
      BrokenExactly(s, First(s, i).next);
    }
  }

  lemma NothingTorn()
    ensures !Torn("")
  {
  }

  lemma TornStep(s: string, n: nat, t: Token)
    requires 0 < n <= |s| && Lexeme(s[..n], t, s[n..]) && !Open(s)
    requires forall m, u :: 0 < m <= |s| && Lexeme(s[..m], u, s[m..]) ==> m == n
    ensures Torn(s) <==> Torn(s[n..])
  {
    hide Lexeme, Open;
  }

  lemma TornAt(s: string, i: nat)
    requires i < |s|
    ensures match First(s, i)
      case Unclosed => Torn(s[i..])
      case Piece(_, next) => Torn(s[i..]) <==> Torn(s[next..])
  {
    hide First, Lexeme, Open;
    UnclosedExactly(s, i);
    if First(s, i).Piece? {
      hide Torn;
      forall n, t | 0 < n <= |s| - i && Lexeme(s[i..][..n], t, s[i..][n..]) ensures First(s, i) == Piece(t, i + n) {
        LexemeIsFirst(s, i, n, t);
      }
      var n := FirstIsLexeme(s, i);
      TornStep(s[i..], n, First(s, i).token);
    }
  }

  /** The scanner's verdict is that of the lexemes. */
  lemma CompleteExactly(s: string)
    ensures IsComplete(s) <==> Tokens(s, 0).Scan? && Script(Tokens(s, 0).tokens)
  {
    assert s[0..] == s;
    forall ts ensures Tokens(s, 0) == Scan(ts) <==> Lexed(s, ts) { TokensExactly(s, 0, ts); }
    hide Tokens, Lexed, Script;
    if Tokens(s, 0).Scan? { assert Lexed(s, Tokens(s, 0).tokens); }
  }
}
