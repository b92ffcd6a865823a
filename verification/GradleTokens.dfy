/** What a Gradle script's tokens are, position by position (pipeline/root_package.go). */
module GradleTokens {
  import opened GoStrings
  import opened GradleScript

  /** How many backslashes stand directly before k, from position from on. */
  function Backslashes(s: string, from: nat, k: nat): (n: nat)
    requires from <= k <= |s|
    ensures n <= k - from && (forall i :: k - n <= i < k ==> s[i] == '\\') && (k - n > from ==> s[k - n - 1] != '\\')
  {
    if k > from && s[k - 1] == '\\' then 1 + Backslashes(s, from, k - 1) else 0
  }

  /** The quote stands at k, and no backslash keeps it from closing. */
  ghost predicate ClosesAt(s: string, q: string, from: nat, k: nat) {
    from <= k && k + |q| <= |s| && s[k..k + |q|] == q && Backslashes(s, from, k) % 2 == 0
  }

  /** From any place an even number of backslashes stands before, the scan finds the first quote that closes. */
  lemma {:induction false} ClosingFrom(s: string, q: string, from: nat, j: nat)
    requires q != "" && from <= j
    requires j <= |s| ==> Backslashes(s, from, j) % 2 == 0
    ensures match Closing(s, q, j)
            case Some(k) => j <= k && ClosesAt(s, q, from, k) && forall i: nat :: j <= i < k ==>
              !ClosesAt(s, q, from, i)
            case None => forall i: nat :: j <= i ==> !ClosesAt(s, q, from, i)
    decreases |s| - j
  {
    hide ClosesAt, Backslashes, Closing, Has;
    ClosingStep(s, q, j);
    if j >= |s| {
      forall i: nat | j <= i ensures !ClosesAt(s, q, from, i) {
        Closes(s, q, from, i);
      }
    } else {
      Closes(s, q, from, j);
      if !Has(s, q, j) {
        StepParity(s, from, j);
        ClosingFrom(s, q, from, if s[j] == '\\' then j + 2 else j + 1);
        Closes(s, q, from, j + 1);
      }
    }
  }

  lemma ClosingStep(s: string, q: string, j: nat)
    ensures Closing(s, q, j) ==
            if j >= |s| then None
            else if Has(s, q, j) then Some(j)
            else Closing(s, q, if s[j] == '\\' then j + 2 else j + 1)
  {
  }

  lemma Closes(s: string, q: string, from: nat, k: nat)
    requires from <= k && q != ""
    ensures ClosesAt(s, q, from, k) <==> k < |s| && Has(s, q, k) && Backslashes(s, from, k) % 2 == 0
  {
    hide Backslashes;
  }

  lemma StepParity(s: string, from: nat, j: nat)
    requires from <= j < |s| && Backslashes(s, from, j) % 2 == 0
    ensures s[j] != '\\' ==> Backslashes(s, from, j + 1) == 0
    ensures s[j] == '\\' ==> Backslashes(s, from, j + 1) % 2 == 1
    ensures s[j] == '\\' && j + 2 <= |s| ==> Backslashes(s, from, j + 2) % 2 == 0
  {
  }

  /** A string's contents begin at from: it closes at the first quote with an even number of backslashes directly
      before it, and has no end exactly when there is none. */
  lemma ClosingExactly(s: string, q: string, from: nat)
    requires q != "" && from <= |s|
    ensures forall k: nat :: Closing(s, q, from) == Some(k) <==>
              ClosesAt(s, q, from, k) && forall i: nat :: from <= i < k ==> !ClosesAt(s, q, from, i)
    ensures Closing(s, q, from) == None <==> forall i: nat :: !ClosesAt(s, q, from, i)
  {
    hide Closing, Backslashes;
    NoneYet(s, from);
    ClosingFrom(s, q, from, from);
  }

  lemma NoneYet(s: string, from: nat)
    requires from <= |s|
    ensures Backslashes(s, from, from) == 0
  {
  }

  /** A string is delimited by three quotes exactly when it begins with three of the same. */
  lemma WidthExactly(s: string)
    requires s != ""
    ensures Width(s) == 3 <==> |s| >= 3 && s[0] == s[1] == s[2]
    ensures Width(s) == 1 || Width(s) == 3
  {
    var q := Quotes(s[0], 3);
    if |s| >= 3 {
      assert s[0..3] == [s[0], s[1], s[2]];
      assert q == [s[0], s[0], s[0]];
    }
  }

  // ----- a whole token -----

  predicate Begins(s: string, a: char, b: char) {
    |s| >= 2 && s[0] == a && s[1] == b
  }

  /** How many quotes delimit the string a text begins with. */
  function Delimiter(s: string): nat {
    if |s| >= 3 && s[0] == s[1] == s[2] then 3 else 1
  }

  ghost predicate FirstClose(s: string, w: nat, k: nat)
    requires s != "" && w <= |s|
  {
    ClosesAt(s, Quotes(s[0], w), w, k) && forall i: nat :: w <= i < k ==> !ClosesAt(s, Quotes(s[0], w), w, i)
  }

  /** t is the token s begins with: a comment up to the end of its line or to the first end of it, a string up to
      the first quote that closes it, or a single byte. */
  ghost predicate IsToken(s: string, t: Token)
    requires s != ""
  {
    && t.length <= |s|
    && match t.kind
       case LineComment =>
         && Begins(s, '/', '/') && (forall i :: 0 <= i < t.length ==> s[i] != '\n')
         && (t.length < |s| ==> s[t.length] == '\n')
       case BlockComment =>
         && Begins(s, '/', '*') && t.length >= 4 && EndsAt(s, t.length - 2)
         && forall i: nat :: 2 <= i < t.length - 2 ==> !EndsAt(s, i)
       case Quoted(w) =>
         (s[0] == '\'' || s[0] == '"') && w == Delimiter(s) && t.length >= w && FirstClose(s, w, t.length - w)
       case OpenBrace => s[0] == '{' && t.length == 1
       case CloseBrace => s[0] == '}' && t.length == 1
       case Other =>
         && t.length == 1 && !Begins(s, '/', '/') && !Begins(s, '/', '*')
         && s[0] != '\'' && s[0] != '"' && s[0] != '{' && s[0] != '}'
  }

  lemma LineExactly(s: string, t: Token)
    requires Begins(s, '/', '/')
    ensures Cut(s) == Some(t) <==> IsToken(s, t)
  {
    hide Closing, FirstClose, Find;
    assert s[..2] == "//";
    var n := LineLength(s);
    assert IsToken(s, t) ==> t.length == n;
  }

  predicate EndsAt(s: string, i: nat) {
    i + 1 < |s| && s[i] == '*' && s[i + 1] == '/'
  }

  /** The end of a block comment is the first star with a slash behind it. */
  lemma FindsEnd(s: string)
    ensures match Find(s, "*/", 2)
            case Some(j) => j >= 2 && EndsAt(s, j) && forall i: nat :: 2 <= i < j ==> !EndsAt(s, i)
            case None => forall i: nat :: 2 <= i ==> !EndsAt(s, i)
  {
    hide Find, Has, EndsAt;
    var end := "*/";
    forall j: nat ensures Has(s, end, j) <==> EndsAt(s, j) {
      EndsComment(s, j);
    }
    var r := Find(s, end, 2);
    match r
    case Some(j) =>
      assert Has(s, end, j);
      forall i: nat | 2 <= i < j ensures !EndsAt(s, i) { assert !Has(s, end, i); }
    case None =>
      forall i: nat | 2 <= i ensures !EndsAt(s, i) { assert !Has(s, end, i); }
  }

  lemma EndsComment(s: string, j: nat)
    ensures Has(s, "*/", j) <==> EndsAt(s, j)
  {
    if j + 2 <= |s| { assert s[j..j + 2] == [s[j], s[j + 1]]; }
  }

  lemma BlockExactly(s: string, t: Token)
    requires Begins(s, '/', '*')
    ensures Cut(s) == Some(t) <==> IsToken(s, t)
  {
    hide Has, Find, Cut, FirstClose, EndsAt;
    FindsEnd(s);
    BlockCommentCut(s);
    if IsToken(s, t) {
      assert t.kind == BlockComment;
      var k: nat := t.length - 2;
      assert EndsAt(s, k);
    }
  }

  lemma BlockCommentCut(s: string)
    requires Begins(s, '/', '*')
    ensures Cut(s) == match Find(s, "*/", 2) case Some(j) => Some(Token(BlockComment, j + 2)) case None => None
  {
    hide Has, Find, Closing;
    assert s[..2] == "/*" && s[0] == '/' && s[1] == '*';
  }

  lemma StringExactly(s: string, t: Token)
    requires s != "" && IsQuote(s[0])
    ensures Cut(s) == Some(t) <==> IsToken(s, t)
  {
    hide Closing, ClosesAt, Quotes;
    WidthExactly(s);
    var w := Width(s);
    ClosingExactly(s, Quotes(s[0], w), w);
    assert !("//" <= s) && !("/*" <= s) by { assert s[0] != '/'; }
  }

  lemma ByteExactly(s: string, t: Token)
    requires s != "" && !IsQuote(s[0]) && !Begins(s, '/', '/') && !Begins(s, '/', '*')
    ensures Cut(s) == Some(t) <==> IsToken(s, t)
  {
    hide Closing, FirstClose;
    assert "//" <= s <==> Begins(s, '/', '/');
    assert "/*" <= s <==> Begins(s, '/', '*');
  }

  /** The lexer cuts off exactly such tokens. */
  lemma CutExactly(s: string, t: Token)
    requires s != ""
    ensures Cut(s) == Some(t) <==> IsToken(s, t)
  {
    hide Cut, IsToken;
    if IsQuote(s[0]) {
      StringExactly(s, t);
    } else if Begins(s, '/', '/') {
      LineExactly(s, t);
    } else if Begins(s, '/', '*') {
      BlockExactly(s, t);
    } else {
      ByteExactly(s, t);
    }
  }
}
