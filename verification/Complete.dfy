/** The lexical side of src/complete.c: how SQL text falls into tokens. */
module SqlTokens {
  import opened CBasics
  import opened Statements

  /** IdChar: letters, digits, underscore, dollar and every byte from 0x80 up. */
  predicate IdChar(c: char) {
    'a' <= c <= 'z' || 'A' <= c <= 'Z' || '0' <= c <= '9' || c == '_' || c == '$' || c as int >= 0x80
  }

  predicate White(c: char) {
    c == ' ' || c == '\r' || c == '\t' || c == '\n' || c == '\U{000C}'
  }

  /** First position from i on that holds c, or |s|. */
  function IndexOf(s: string, c: char, i: nat): (r: nat)
    requires i <= |s|
    ensures i <= r <= |s| && (r < |s| ==> s[r] == c) && forall k :: i <= k < r ==> s[k] != c
    decreases |s| - i
  {
    if i == |s| || s[i] == c then i else IndexOf(s, c, i + 1)
  }

  predicate StarSlash(s: string, i: nat) {
    At(s, i) == '*' && At(s, i + 1) == '/'
  }

  /** First position from i on where a block comment closes, or |s|. */
  function CommentEnd(s: string, i: nat): (r: nat)
    requires i <= |s|
    ensures i <= r <= |s| && (r < |s| ==> StarSlash(s, r)) && forall k :: i <= k < r ==> !StarSlash(s, k)
    decreases |s| - i
  {
    if i == |s| || StarSlash(s, i) then i else CommentEnd(s, i + 1)
  }

  /** End of the identifier characters from i on. */
  function WordEnd(s: string, i: nat): (r: nat)
    requires i <= |s|
    ensures i <= r <= |s| && (r < |s| ==> !IdChar(s[r])) && forall k :: i <= k < r ==> IdChar(s[k])
    decreases |s| - i
  {
    if i == |s| || !IdChar(s[i]) then i else WordEnd(s, i + 1)
  }

  function Keyword(word: string): Token {
    var w := Lower(word);
    if w == "create" then Create
    else if w == "trigger" then Trigger
    else if w == "temp" || w == "temporary" then Temp
    else if w == "end" then End
    else if w == "explain" then Explain
    else Other
  }

  /** The token that starts at a position and the position just after it. */
  datatype Piece = Unclosed | Piece(token: Token, next: nat)

  function Closed(s: string, token: Token, last: nat): Piece {
    if last < |s| then Piece(token, last + 1) else Unclosed
  }

  function First(s: string, i: nat): (p: Piece)
    requires i < |s|
    ensures p.Piece? ==> i < p.next <= |s|
  {
    var c := s[i];
    if c == ';' then Piece(Semi, i + 1)
    else if White(c) then Piece(Ws, i + 1)
    else if c == '/' && At(s, i + 1) == '*' then
      var e := CommentEnd(s, i + 2);
      if e < |s| then Piece(Ws, e + 2) else Unclosed
    else if c == '-' && At(s, i + 1) == '-' then
      var e := IndexOf(s, '\n', i + 2);
      Piece(Ws, if e < |s| then e + 1 else e)
    else if c == '[' then Closed(s, Other, IndexOf(s, ']', i + 1))
    else if c == '`' || c == '"' || c == '\'' then Closed(s, Other, IndexOf(s, c, i + 1))
    else if IdChar(c) then
      var e := WordEnd(s, i);
      Piece(Keyword(s[i..e]), e)
    else Piece(Other, i + 1)
  }

  /** The significant tokens of a text, or Broken when a quote or block comment never closes. */
  datatype Scan = Broken | Scan(tokens: seq<Token>)

  function Prepend(t: Token, rest: Scan): Scan {
    if rest.Broken? || t == Ws then rest else Scan([t] + rest.tokens)
  }

  function Tokens(s: string, i: nat): Scan
    requires i <= |s|
    decreases |s| - i
  {
    if i == |s| then Scan([])
    else match First(s, i)
         case Unclosed => Broken
         case Piece(t, next) => Prepend(t, Tokens(s, next))
  }
}

/** src/complete.c: sqlite3_complete. */
module Complete {
  import opened CBasics
  import opened Statements
  import opened CompleteMachine
  import opened SqlTokens
  import opened SqlLexemes

  ghost function After(done: seq<Token>, rest: Scan): Scan {
    if rest.Broken? then Broken else Scan(done + rest.tokens)
  }

  /** sqlite3StrNICmp of |kw| characters at position i against a lower-case word. */
  predicate Matches(s: string, i: nat, kw: string) {
    i + |kw| <= |s| && forall k :: 0 <= k < |kw| ==> ToLower(s[i + k]) == kw[k]
  }

  lemma MatchesIsEqual(s: string, i: nat, nId: nat, kw: string)
    requires i + nId <= |s|
    ensures nId == |kw| && Matches(s, i, kw) <==> Lower(s[i..i+nId]) == kw
  {
  }

  /** The keyword branch of the scanner for the word of nId characters at z. */
  method Classify(s: string, z: nat, nId: nat) returns (token: Token)
    requires 0 < nId && z + nId <= |s|
    ensures token == Keyword(s[z..z+nId])
  {
    var c := s[z];
    assert ToLower(c) == Lower(s[z..z+nId])[0];
    MatchesIsEqual(s, z, nId, "create");
    MatchesIsEqual(s, z, nId, "trigger");
    MatchesIsEqual(s, z, nId, "temp");
    MatchesIsEqual(s, z, nId, "temporary");
    MatchesIsEqual(s, z, nId, "end");
    MatchesIsEqual(s, z, nId, "explain");
    if c == 'c' || c == 'C' {
      token := if nId == 6 && Matches(s, z, "create") then Create else Other;
    } else if c == 't' || c == 'T' {
      token := if nId == 7 && Matches(s, z, "trigger") then Trigger
               else if nId == 4 && Matches(s, z, "temp") then Temp
               else if nId == 9 && Matches(s, z, "temporary") then Temp
               else Other;
    } else if c == 'e' || c == 'E' {
      token := if nId == 3 && Matches(s, z, "end") then End
               else if nId == 7 && Matches(s, z, "explain") then Explain
               else Other;
    } else {
      token := Other;
    }
  }

  method SkipTo(s: string, i: nat, c: char) returns (z: nat)
    requires i <= |s|
    ensures z == IndexOf(s, c, i)
  {
    z := i;
    while z < |s| && s[z] != c
      invariant i <= z <= |s| && IndexOf(s, c, i) == IndexOf(s, c, z)
    {
      z := z + 1;
    }
  }

  method SkipComment(s: string, i: nat) returns (z: nat)
    requires i <= |s|
    ensures z == CommentEnd(s, i)
  {
    z := i;
    while z < |s| && (s[z] != '*' || At(s, z + 1) != '/')
      invariant i <= z <= |s| && CommentEnd(s, i) == CommentEnd(s, z)
    {
      z := z + 1;
    }
  }

  /** Number of characters in the word at z. */
  method WordLength(s: string, z: nat) returns (nId: nat)
    requires z < |s| && IdChar(s[z])
    ensures nId > 0 && z + nId == WordEnd(s, z)
  {
    nId := 1;
    while z + nId < |s| && IdChar(s[z + nId])
      invariant 1 <= nId && z + nId <= |s| && WordEnd(s, z) == WordEnd(s, z + nId)
    {
      nId := nId + 1;
    }
  }

  /** One pass through the switch: the token at z0 and the position after it.  `open` reports a quote or
      block comment that runs into the end of the text, `eof` a line comment that does. */
  method ReadToken(s: string, z0: nat) returns (open: bool, eof: bool, token: Token, z: nat)
    requires z0 < |s|
    ensures open ==> First(s, z0).Unclosed?
    ensures !open ==> First(s, z0) == Piece(token, z)
    ensures eof ==> !open && token == Ws && z == |s|
  {
    open, eof, token, z := false, false, Other, z0;
    hide Keyword;
    var c := s[z];
    if c == ';' {
      token := Semi;
    } else if White(c) {
      token := Ws;
    } else if c == '/' {
      if At(s, z + 1) == '*' {
        z := SkipComment(s, z + 2);
        if z == |s| { open := true; return; }
        z := z + 1;
        token := Ws;
      }
    } else if c == '-' {
      if At(s, z + 1) == '-' {
        z := SkipTo(s, z, '\n');
        token := Ws;
        if z == |s| { eof := true; return; }
      }
    } else if c == '[' {
      z := SkipTo(s, z + 1, ']');
      if z == |s| { open := true; return; }
    } else if c == '`' || c == '"' || c == '\'' {
      z := SkipTo(s, z + 1, c);
      if z == |s| { open := true; return; }
    } else if IdChar(c) {
      var nId := WordLength(s, z);
      token := Classify(s, z, nId);
      z := z + nId - 1;
    }
    z := z + 1;
  }

  /** sqlite3_complete */
  method SqlComplete(zSql: string) returns (r: bool)
    requires '\0' !in zSql
    ensures r <==> IsComplete(zSql)
  {
    var state, z := INVALID, 0;
    ghost var done: seq<Token> := [];
    assert Tokens(zSql, 0) == After(done, Tokens(zSql, z)) && state == Run(INVALID, done);
    hide First, Tokens, After, IsComplete, Run;
    while z < |zSql|
      invariant z <= |zSql| && state < 8
      invariant Ws !in done && state == Run(INVALID, done)
      invariant Tokens(zSql, 0) == After(done, Tokens(zSql, z))
    {
      var open, eof, token, next := ReadToken(zSql, z);
      if open {
        LeftOpen(zSql, z, done);
        return false;
      }
      if eof {
        LastToken(zSql, z, done);
        Verdict(zSql, done);
        return state == START;
      }
      AfterToken(zSql, z, done, token, next);
      NextState(done, token);
      if token != Ws { done := done + [token]; }
      state := TRANS[state][TokenCode(token)];
      z := next;
    }
    NoMoreTokens(zSql, done);
    Verdict(zSql, done);
    return state == START;
  }

  lemma NoMoreTokens(s: string, done: seq<Token>)
    ensures After(done, Tokens(s, |s|)) == Scan(done)
  {
  }

  /** White space at the very end leaves the tokens read so far. */
  lemma LastToken(s: string, z: nat, done: seq<Token>)
    requires z < |s| && First(s, z) == Piece(Ws, |s|)
    ensures After(done, Tokens(s, z)) == Scan(done)
  {
  }

  lemma LeftOpen(s: string, z: nat, done: seq<Token>)
    requires z < |s| && First(s, z).Unclosed? && Tokens(s, 0) == After(done, Tokens(s, z))
    ensures !IsComplete(s)
  {
    CompleteExactly(s);
    hide IsComplete;
  }

  /** One more token moves the machine by one entry of its table; white space leaves it where it is. */
  lemma NextState(done: seq<Token>, token: Token)
    ensures Step(Run(INVALID, done), token) == Run(INVALID, if token == Ws then done else done + [token])
  {
    assert (done + [token])[..|done|] == done;
  }

  lemma AfterToken(s: string, z: nat, done: seq<Token>, token: Token, next: nat)
    requires z < |s| && First(s, z) == Piece(token, next)
    ensures next <= |s|
    ensures After(done, Tokens(s, z)) == After(if token == Ws then done else done + [token], Tokens(s, next))
  {
  }

  lemma Verdict(s: string, done: seq<Token>)
    requires Tokens(s, 0) == Scan(done) && Ws !in done
    ensures IsComplete(s) <==> Run(INVALID, done) == START
  {
    CompleteExactly(s);
    hide IsComplete;
    if done != [] {
      AcceptsExactlyScripts(done);
      InvalidActsAsStart(done);
    }
  }

  /** The same piece of text; one that is white space up to the end n may have become longer by a character. */
  ghost predicate SamePiece(p: Piece, u: Piece, n: nat) {
    match p
    case Unclosed => u.Unclosed?
    case Piece(t, next) =>
      u.Piece? && u.token == t && (u.next == next || (t == Ws && next == n && u.next == n + 1))
  }

  lemma CommentWithWhite(s: string, i: nat, w: char)
    requires i + 1 < |s| && White(w) && s[i] == '/' && s[i + 1] == '*'
    ensures SamePiece(First(s, i), First(s + [w], i), |s|)
  {
    CommentEndWithWhite(s, i + 2, w);
    hide CommentEnd, IndexOf, WordEnd, Keyword;
  }

  lemma DashesWithWhite(s: string, i: nat, w: char)
    requires i + 1 < |s| && White(w) && s[i] == '-' && s[i + 1] == '-'
    ensures SamePiece(First(s, i), First(s + [w], i), |s|)
  {
    IndexOfWithWhite(s, '\n', i + 2, w);
    hide CommentEnd, IndexOf, WordEnd, Keyword;
  }

  lemma QuotedWithWhite(s: string, i: nat, w: char)
    requires i < |s| && White(w) && s[i] in {'[', '`', '"', '\''}
    ensures SamePiece(First(s, i), First(s + [w], i), |s|)
  {
    IndexOfWithWhite(s, if s[i] == '[' then ']' else s[i], i + 1, w);
    hide CommentEnd, IndexOf, WordEnd, Keyword;
  }

  lemma OtherWithWhite(s: string, i: nat, w: char)
    requires i < |s| && White(w) && s[i] !in {'[', '`', '"', '\''}
    requires i + 1 < |s| ==> !(s[i] == '/' && s[i + 1] == '*') && !(s[i] == '-' && s[i + 1] == '-')
    ensures SamePiece(First(s, i), First(s + [w], i), |s|)
  {
    if IdChar(s[i]) {
      WordEndWithWhite(s, i, w);
      assert (s + [w])[i..WordEnd(s, i)] == s[i..WordEnd(s, i)];
    }
    hide CommentEnd, IndexOf, WordEnd, Keyword;
  }

  /** Appending one white-space character changes the token at no position but the end. */
  lemma FirstWithWhite(s: string, i: nat, w: char)
    requires i < |s| && White(w)
    ensures SamePiece(First(s, i), First(s + [w], i), |s|)
  {
    hide First, SamePiece;
    if i + 1 < |s| && s[i] == '/' && s[i + 1] == '*' {
      CommentWithWhite(s, i, w);
    } else if i + 1 < |s| && s[i] == '-' && s[i + 1] == '-' {
      DashesWithWhite(s, i, w);
    } else if s[i] in {'[', '`', '"', '\''} {
      QuotedWithWhite(s, i, w);
    } else {
      OtherWithWhite(s, i, w);
    }
  }

  lemma IndexOfWithWhite(s: string, c: char, i: nat, w: char)
    requires i <= |s|
    ensures var r, ru := IndexOf(s, c, i), IndexOf(s + [w], c, i);
      ru == if r < |s| then r else if w == c then |s| else |s| + 1
  {
    hide IndexOf;
    var u := s + [w];
    var r, ru := IndexOf(s, c, i), IndexOf(u, c, i);
    assert forall k :: i <= k < |s| ==> u[k] == s[k];
    assert u[|s|] == w;
    assert if r < |s| then u[r] == c else forall k :: i <= k < |s| ==> u[k] != c;
    assert ru < |u| ==> u[ru] == c;
  }

  lemma WordEndWithWhite(s: string, i: nat, w: char)
    requires i <= |s| && White(w)
    ensures WordEnd(s + [w], i) == WordEnd(s, i)
  {
    hide WordEnd;
    assert forall k :: i <= k < |s| ==> (s + [w])[k] == s[k];
    assert (s + [w])[|s|] == w;
  }

  lemma {:induction false} CommentEndWithWhite(s: string, i: nat, w: char)
    requires i <= |s| && White(w)
    ensures CommentEnd(s, i) < |s| ==> CommentEnd(s + [w], i) == CommentEnd(s, i)
    ensures CommentEnd(s, i) == |s| ==> CommentEnd(s + [w], i) == |s| + 1
    decreases |s| - i
  {
    if i < |s| && !StarSlash(s, i) {
      CommentEndWithWhite(s, i + 1, w);
    }
  }

  lemma {:induction false} TokensWithWhite(s: string, i: nat, w: char)
    requires i <= |s| && White(w)
    ensures Tokens(s + [w], i) == Tokens(s, i)
    decreases |s| - i
  {
    if i < |s| {
      FirstWithWhite(s, i, w);
      hide First;
      if First(s, i).Piece? {
        TokensWithWhite(s, First(s, i).next, w);
      }
    }
  }

  /** Appending white space never changes the answer. */
  lemma {:induction false} TrailingWhiteSpaceIgnored(s: string, ws: string)
    requires forall k :: 0 <= k < |ws| ==> White(ws[k])
    ensures IsComplete(s + ws) <==> IsComplete(s)
    decreases |ws|
  {
    hide IsComplete;
    if ws == [] {
      assert s + ws == s;
    } else {
      assert s + ws == s + [ws[0]] + ws[1..];
      TrailingWhiteSpaceIgnored(s + [ws[0]], ws[1..]);
      TokensWithWhite(s, 0, ws[0]);
      CompleteExactly(s);
      CompleteExactly(s + [ws[0]]);
    }
  }
}
