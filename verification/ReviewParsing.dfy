/** What the parser makes of a printed review text, whatever its paragraphs hold (legacyMappers.ts). */
module ReviewParsing {
  import opened Wrappers
  import opened ReviewText

  // ---------- Blank ends ----------

  lemma {:induction false} TrimStartLeaves(s: string) returns (lead: string)
    ensures IsBlank(lead) && s == lead + TrimStart(s) && (TrimStart(s) == "" || !IsSpace(TrimStart(s)[0]))
  {
    if s != "" && IsSpace(s[0]) {
      var rest := TrimStartLeaves(s[1..]);
      lead := [s[0]] + rest;
    } else {
      lead := "";
    }
  }

  lemma {:induction false} TrimEndLeaves(s: string) returns (tail: string)
    ensures IsBlank(tail) && s == TrimEnd(s) + tail
    ensures TrimEnd(s) == "" || !IsSpace(TrimEnd(s)[|TrimEnd(s)| - 1])
  {
    if s != "" && IsSpace(s[|s| - 1]) {
      var rest := TrimEndLeaves(s[..|s| - 1]);
      tail := rest + [s[|s| - 1]];
    } else {
      tail := "";
    }
  }

  /** A text is its trimmed text between blank ends. */
  lemma TrimLeaves(s: string) returns (lead: string, tail: string)
    ensures IsBlank(lead) && IsBlank(tail) && s == lead + Trim(s) + tail && (Trim(s) == "" || IsTrimmed(Trim(s)))
  {
    lead := TrimStartLeaves(s);
    tail := TrimEndLeaves(TrimStart(s));
    Associative(lead, Trim(s), tail);
    assert TrimStart(s) == Trim(s) + tail;
    assert Trim(s) != "" ==> TrimStart(s)[0] == Trim(s)[0];
  }

  lemma TrimIgnoresBlank(lead: string, s: string, tail: string)
    requires IsBlank(lead) && IsBlank(tail)
    ensures Trim(lead + s + tail) == Trim(s)
  {
    var l, r := TrimLeaves(s);
    assert lead + s + tail == (lead + l) + Trim(s) + (r + tail);
    TrimBlankEnds(lead + l, Trim(s), r + tail);
  }

  /** Between blank ends there is no more to keep than this. */
  lemma TrimBound(lead: string, s: string, tail: string)
    requires IsBlank(lead) && IsBlank(tail)
    ensures |Trim(lead + s + tail)| <= |s|
  {
    TrimIgnoresBlank(lead, s, tail);
    var l, r := TrimLeaves(s);
  }

  /** Cutting out a part that does not start with a space leaves less text. */
  lemma CutShrinks(s: string, i: nat, j: nat)
    requires i < j <= |s| && !IsSpace(s[i])
    ensures |Trim(s[..i])| + |Trim(s[j..])| < |Trim(s)|
  {
    var l, r := TrimLeaves(s);
    var a, b := |l|, |l| + |Trim(s)|;
    assert s[..a] == l && s[b..] == r;
    assert s == l + Trim(s) + r;
    if !(a <= i < b) {
      EndsAreSpaces(l, Trim(s), r, i);
    }
    BoundBefore(s, a, i);
    BoundAfter(s, j, b);
  }

  lemma EndsAreSpaces(lead: string, s: string, tail: string, i: nat)
    requires IsBlank(lead) && IsBlank(tail) && i < |lead + s + tail| && !(|lead| <= i < |lead| + |s|)
    ensures IsSpace((lead + s + tail)[i])
  {
    assert i < |lead| ==> (lead + s + tail)[i] == lead[i];
    assert i >= |lead| + |s| ==> (lead + s + tail)[i] == tail[i - |lead| - |s|];
  }

  lemma BoundBefore(s: string, a: nat, i: nat)
    requires a <= i <= |s| && IsBlank(s[..a])
    ensures |Trim(s[..i])| <= i - a
  {
    TrimBound(s[..a], s[a..i], "");
    assert s[..a] + s[a..i] + "" == s[..i];
  }

  lemma BoundAfter(s: string, j: nat, b: nat)
    requires j <= |s| && b <= |s| && IsBlank(s[b..])
    ensures |Trim(s[j..])| <= if j <= b then b - j else 0
  {
    if j <= b {
      TrimBound("", s[j..b], s[b..]);
      assert "" + s[j..b] + s[b..] == s[j..];
    } else {
      assert s[j..] == s[b..][j - b..];
      TrimBound("", "", s[j..]);
      assert "" + "" + s[j..] == s[j..];
    }
  }

  // ---------- Tokens that form in a paragraph ----------

  /** A token forms at i: it is closed in the text itself, or an image token that follows closes it. */
  predicate TokenForms(s: string, i: nat, followed: bool) {
    StartsAt(s, i) && (TokenAt(s, i) || (followed && NextBracket(s, i + |TOKEN_START|) == |s|))
  }

  ghost predicate IsSafe(s: string, followed: bool) {
    forall i: nat :: !TokenForms(s, i, followed)
  }

  /** No token start reaches over a space. */
  lemma SpaceStopsStart(s: string, i: nat, p: nat)
    requires i <= p < i + |TOKEN_START| && p < |s| && IsSpace(s[p])
    ensures !StartsAt(s, i)
  {
    StartIsNoSpace(p - i);
    if i + |TOKEN_START| <= |s| {
      assert s[i..i + |TOKEN_START|][p - i] == s[p];
    }
  }

  lemma StartIsNoSpace(k: nat)
    requires k < |TOKEN_START|
    ensures !IsSpace(TOKEN_START[k])
  {
  }

  lemma {:induction false} NextBracketBlank(s: string, tail: string, i: nat)
    requires i <= |s| && IsBlank(tail)
    ensures NextBracket(s + tail, i) == if NextBracket(s, i) < |s| then NextBracket(s, i) else |s + tail|
    decreases |s| - i
  {
    if i < |s| {
      assert (s + tail)[i] == s[i];
      if s[i] != ']' {
        NextBracketBlank(s, tail, i + 1);
      }
    } else {
      assert forall k :: |s| <= k < |s + tail| ==> (s + tail)[k] == tail[k - |s|];
    }
  }

  lemma StartBeforeBlank(s: string, tail: string, i: nat)
    requires IsBlank(tail)
    ensures StartsAt(s + tail, i) <==> StartsAt(s, i)
  {
    var t := s + tail;
    if |s| < i + |TOKEN_START| <= |t| {
      var p := if i < |s| then |s| else i;
      assert t[p] == tail[p - |s|];
      SpaceStopsStart(t, i, p);
    }
    if i + |TOKEN_START| <= |s| {
      assert t[i..i + |TOKEN_START|] == s[i..i + |TOKEN_START|];
    }
  }

  lemma FormsBeforeBlank(s: string, tail: string, i: nat, followed: bool)
    requires IsBlank(tail)
    ensures TokenForms(s + tail, i, followed) <==> TokenForms(s, i, followed)
    ensures TokenAt(s + tail, i) <==> TokenAt(s, i)
    ensures TokenAt(s, i) ==> UrlAt(s + tail, i) == UrlAt(s, i) && AfterToken(s + tail, i) == AfterToken(s, i)
  {
    StartBeforeBlank(s, tail, i);
    if StartsAt(s, i) {
      var start := i + |TOKEN_START|;
      NextBracketBlank(s, tail, start);
      var end := NextBracket(s, start);
      if end + 1 < |s| {
        assert (s + tail)[end + 1] == s[end + 1];
        assert (s + tail)[start..end] == s[start..end];
      } else if end + 1 == |s| && tail != "" {
        assert (s + tail)[end + 1] == tail[0];
      }
    }
  }

  lemma FormsAfterBlank(lead: string, s: string, i: nat, followed: bool)
    requires IsBlank(lead)
    ensures TokenForms(lead + s, |lead| + i, followed) <==> TokenForms(s, i, followed)
  {
    var t := lead + s;
    assert t[|lead|..] == s;
    if i + |TOKEN_START| <= |s| {
      assert s[i..i + |TOKEN_START|] == t[|lead| + i..|lead| + i + |TOKEN_START|];
      hide IsBlank, TokenAt;
      TokenShift(t, |lead|, i);
      NextBracketShift(t, |lead|, i + |TOKEN_START|);
    }
  }

  lemma NoFormInBlank(lead: string, s: string, i: nat, followed: bool)
    requires IsBlank(lead) && i < |lead|
    ensures !TokenForms(lead + s, i, followed)
  {
    assert (lead + s)[i] == lead[i];
    SpaceStopsStart(lead + s, i, i);
  }

  /** Blank ends make no token. */
  lemma SafeBlankEnds(lead: string, s: string, tail: string, followed: bool)
    requires IsBlank(lead) && IsBlank(tail)
    ensures IsSafe(lead + s + tail, followed) <==> IsSafe(s, followed)
  {
    var t := lead + s + tail;
    hide IsBlank, TokenForms;
    forall i: nat
      ensures TokenForms(t, |lead| + i, followed) <==> TokenForms(s, i, followed)
      ensures i < |lead| ==> !TokenForms(t, i, followed)
    {
      FormsBetweenBlanks(lead, s, tail, i, followed);
    }
    if IsSafe(s, followed) {
      forall i: nat
        ensures !TokenForms(t, i, followed)
      {
        if i >= |lead| {
          assert TokenForms(t, |lead| + (i - |lead|), followed) <==> TokenForms(s, i - |lead|, followed);
        }
      }
    } else {
      var i: nat :| TokenForms(s, i, followed);
      assert TokenForms(t, |lead| + i, followed);
    }
  }

  lemma FormsBetweenBlanks(lead: string, s: string, tail: string, i: nat, followed: bool)
    requires IsBlank(lead) && IsBlank(tail)
    ensures TokenForms(lead + s + tail, |lead| + i, followed) <==> TokenForms(s, i, followed)
    ensures i < |lead| ==> !TokenForms(lead + s + tail, i, followed)
  {
    hide *;
    FormsBeforeBlank(lead + s, tail, |lead| + i, followed);
    FormsBeforeBlank(lead + s, tail, i, followed);
    FormsAfterBlank(lead, s, i, followed);
    if i < |lead| {
      NoFormInBlank(lead, s, i, followed);
    }
  }

  // ---------- Trimming the whole text ----------

  lemma {:induction false} FindTokenBeforeBlank(s: string, tail: string, i: nat)
    requires i <= |s| && IsBlank(tail)
    ensures FindToken(s + tail, i) == FindToken(s, i)
    decreases |s| - i
  {
    FormsBeforeBlank(s, tail, i, false);
    if i < |s| {
      hide TokenAt, IsBlank;
      FindTokenBeforeBlank(s, tail, i + 1);
    } else {
      NoTokenInBlank(s, tail, i);
    }
  }

  lemma {:induction false} NoTokenInBlank(s: string, tail: string, i: nat)
    requires |s| <= i <= |s + tail| && IsBlank(tail)
    ensures FindToken(s + tail, i) == None
    decreases |s + tail| - i
  {
    if i < |s + tail| {
      FormsBeforeBlank(s, tail, i, false);
      NoTokenInBlank(s, tail, i + 1);
    }
  }

  lemma {:induction false} ParseBeforeBlank(s: string, tail: string)
    requires IsBlank(tail)
    ensures ParsePieces(s + tail) == ParsePieces(s)
    decreases |s|
  {
    FindTokenBeforeBlank(s, tail, 0);
    if FindToken(s, 0).Some? {
      var i := FindToken(s, 0).value;
      FormsBeforeBlank(s, tail, i, false);
      var j := AfterToken(s, i);
      assert (s + tail)[..i] == s[..i] && (s + tail)[j..] == s[j..] + tail;
      hide IsBlank, FindToken, TokenAt, AfterToken, UrlAt, TextPiece;
      ParseBeforeBlank(s[j..], tail);
      ParseUnfold(s, i);
      ParseUnfold(s + tail, i);
    } else {
      TrimIgnoresBlank("", s, tail);
      assert "" + s + tail == s + tail;
    }
  }

  lemma {:induction false} FindTokenAfterBlank(lead: string, s: string, i: nat)
    requires i <= |lead| && IsBlank(lead)
    ensures FindToken(lead + s, i) == FindToken(lead + s, |lead|)
    decreases |lead| - i
  {
    if i < |lead| {
      NoFormInBlank(lead, s, i, false);
      hide IsBlank, TokenAt;
      FindTokenAfterBlank(lead, s, i + 1);
    }
  }

  lemma TextAfterBlank(lead: string, s: string, i: nat)
    requires IsBlank(lead) && |lead| <= i <= |lead + s|
    ensures TextPiece((lead + s)[..i]) == TextPiece((lead + s)[|lead|..i])
  {
    TrimIgnoresBlank(lead, (lead + s)[|lead|..i], "");
    assert (lead + s)[..i] == lead + (lead + s)[|lead|..i] + "";
  }

  lemma ParseAfterBlank(lead: string, s: string)
    requires IsBlank(lead)
    ensures ParsePieces(lead + s) == ParsePieces(s)
  {
    var t := lead + s;
    assert t[|lead|..] == s && t[0..] == t;
    FindTokenAfterBlank(lead, s, 0);
    hide IsBlank, FindToken, TokenAt, AfterToken, UrlAt, TextPiece, ParsePieces;
    if FindToken(t, 0).Some? {
      var i := FindToken(t, 0).value;
      TextAfterBlank(lead, s, i);
      assert t[0..i] == t[..i];
      ParseFrom(t, 0, i);
      ParseFrom(t, |lead|, i);
    } else {
      TextAfterBlank(lead, s, |t|);
      assert t[|lead|..|t|] == t[|lead|..] && t[..|t|] == t;
      ParseEnd(t, 0);
      ParseEnd(t, |lead|);
    }
  }

  /** Trimming a text changes nothing of what is parsed. */
  lemma TrimKeepsPieces(s: string)
    ensures ParsePieces(Trim(s)) == ParsePieces(s)
  {
    var l, r := TrimLeaves(s);
    ParseAfterBlank(l, Trim(s));
    ParseBeforeBlank(l + Trim(s), r);
  }

  // ---------- What is to be parsed ----------

  function TidyPiece(p: Piece): seq<Piece> {
    match p
    case Text(text) => TextPiece(text)
    case Token(_) => [p]
  }

  /** Each paragraph trimmed, and the blank ones dropped. */
  function Tidy(pieces: seq<Piece>): seq<Piece> {
    if pieces == [] then [] else TidyPiece(pieces[0]) + Tidy(pieces[1..])
  }

  /** How much text the pieces show. */
  function TextLength(pieces: seq<Piece>): nat {
    if pieces == [] then 0 else (if pieces[0].Text? then |pieces[0].text| else 0) + TextLength(pieces[1..])
  }

  /** No token forms in piece i, also not with the image token that may follow. */
  ghost predicate IsSafeAt(pieces: seq<Piece>, i: nat)
    requires i < |pieces|
  {
    pieces[i].Text? ==> IsSafe(pieces[i].text, i + 1 < |pieces|)
  }

  ghost predicate AreSafe(pieces: seq<Piece>) {
    forall i :: 0 <= i < |pieces| ==> IsSafeAt(pieces, i)
  }

  /** A url that a token can hold. */
  predicate IsUrl(url: string) {
    url != "" && ']' !in url
  }

  ghost predicate HoldUrls(pieces: seq<Piece>) {
    forall i :: 0 <= i < |pieces| && pieces[i].Token? ==> IsUrl(pieces[i].url)
  }

  predicate EndsLine(s: string) {
    s == "" || s[|s| - 1] == '\n'
  }

  /** The text is parsed as expected where it is safe, and shows less text where it is not. */
  ghost predicate ParsesTo(s: string, safe: bool, expected: seq<Piece>) {
    && (safe ==> ParsePieces(s) == expected)
    && (!safe ==> TextLength(ParsePieces(s)) < TextLength(expected))
  }

  lemma {:induction false} TextLengthConcat(a: seq<Piece>, b: seq<Piece>)
    ensures TextLength(a + b) == TextLength(a) + TextLength(b)
  {
    if a == [] {
      assert a + b == b;
    } else {
      assert (a + b)[1..] == a[1..] + b;
      TextLengthConcat(a[1..], b);
    }
  }

  lemma TextPieceLength(s: string)
    ensures TextLength(TextPiece(s)) == |Trim(s)|
  {
    hide Trim;
    if Trim(s) != "" {
      assert TextPiece(s)[1..] == [];
    }
  }

  /** What a parse shows that starts with a paragraph and an image. */
  lemma LengthOfThree(s: string, url: string, rest: seq<Piece>)
    ensures TextLength(TextPiece(s) + [Token(url)] + rest) == |Trim(s)| + TextLength(rest)
  {
    hide TextPiece;
    TextLengthConcat(TextPiece(s) + [Token(url)], rest);
    TextLengthConcat(TextPiece(s), [Token(url)]);
    assert [Token(url)][1..] == [];
    TextPieceLength(s);
  }

  // ---------- The token behind a paragraph ----------

  lemma StartBeforeToken(lead: string, rest: string, i: nat)
    requires EndsLine(lead) && i < |lead|
    ensures StartsAt(lead + rest, i) <==> StartsAt(lead, i)
  {
    var s, p := lead + rest, |lead| - 1;
    assert s[p] == lead[p];
    if p < i + |TOKEN_START| {
      SpaceStopsStart(s, i, p);
      SpaceStopsStart(lead, i, p);
    } else {
      assert s[i..i + |TOKEN_START|] == lead[i..i + |TOKEN_START|];
    }
  }

  lemma BracketInLead(lead: string, rest: string, i: nat)
    requires i <= |lead| && NextBracket(lead, i) < |lead|
    ensures NextBracket(lead + rest, i) == NextBracket(lead, i)
  {
    var j := NextBracket(lead, i);
    assert forall k :: i <= k < j ==> (lead + rest)[k] == lead[k];
    BracketAt(lead + rest, i, j);
  }

  lemma BracketBehindLead(lead: string, url: string, tail: string, i: nat)
    requires i <= |lead| && NextBracket(lead, i) == |lead| && ']' !in url
    ensures NextBracket(lead + (TOKEN_START + url + "]]") + tail, i) == |lead| + |TOKEN_START| + |url|
  {
    var s, j := lead + (TOKEN_START + url + "]]") + tail, |lead| + |TOKEN_START| + |url|;
    forall k | i <= k < j
      ensures s[k] != ']'
    {
      if k < |lead| {
        assert s[k] == lead[k];
      } else if k < |lead| + |TOKEN_START| {
        assert s[k] == TOKEN_START[k - |lead|];
      } else {
        assert s[k] == url[k - |lead| - |TOKEN_START|];
      }
    }
    assert s[j] == ']';
    BracketAt(s, i, j);
  }

  lemma ClosedInLead(lead: string, rest: string, i: nat)
    requires EndsLine(lead) && StartsAt(lead, i) && StartsAt(lead + rest, i)
    requires NextBracket(lead, i + |TOKEN_START|) < |lead|
    ensures TokenAt(lead + rest, i) <==> TokenAt(lead, i)
    ensures TokenAt(lead, i) ==> AfterToken(lead + rest, i) == AfterToken(lead, i)
  {
    var end := NextBracket(lead, i + |TOKEN_START|);
    BracketInLead(lead, rest, i + |TOKEN_START|);
    assert lead[|lead| - 1] != ']';
    assert (lead + rest)[end + 1] == lead[end + 1];
    hide StartsAt, NextBracket;
  }

  lemma ClosedBehindLead(lead: string, url: string, tail: string, i: nat)
    requires StartsAt(lead, i) && NextBracket(lead, i + |TOKEN_START|) == |lead| && IsUrl(url)
    requires StartsAt(lead + (TOKEN_START + url + "]]") + tail, i)
    ensures var s := lead + (TOKEN_START + url + "]]") + tail;
            TokenAt(s, i) && AfterToken(s, i) == |lead| + |TOKEN_START| + |url| + 2
  {
    var s := lead + (TOKEN_START + url + "]]") + tail;
    BracketBehindLead(lead, url, tail, i + |TOKEN_START|);
    assert s[|lead| + |TOKEN_START| + |url| + 1] == ']';
    hide StartsAt, NextBracket;
  }

  /** Before a printed token a token is found exactly where one forms in the lead. */
  lemma FormsBeforeToken(lead: string, url: string, tail: string, i: nat)
    requires EndsLine(lead) && i < |lead| && IsUrl(url)
    ensures var s := lead + PieceText(Token(url)) + tail;
            && (TokenAt(s, i) <==> TokenForms(lead, i, true))
            && (TokenAt(lead, i) ==> TokenAt(s, i) && AfterToken(s, i) == AfterToken(lead, i))
            && (TokenAt(s, i) && !TokenAt(lead, i) ==> AfterToken(s, i) == |lead| + |PieceText(Token(url))|)
  {
    var token := PieceText(Token(url));
    assert token == TOKEN_START + url + "]]";
    assert |token| == |TOKEN_START| + |url| + 2;
    Associative(lead, token, tail);
    StartBeforeToken(lead, token + tail, i);
    if StartsAt(lead, i) {
      if NextBracket(lead, i + |TOKEN_START|) < |lead| {
        ClosedInLead(lead, token + tail, i);
      } else {
        ClosedBehindLead(lead, url, tail, i);
      }
    }
  }

  // ---------- Parsing what was joined ----------

  /** A text, and pieces behind it that start with an image on a line of its own. */
  ghost predicate IsTokenLed(x: string, rest: seq<Piece>) {
    IsMerged(rest) && HoldUrls(rest) && (rest == [] || (rest[0].Token? && EndsLine(x)))
  }

  ghost predicate IsSafeLed(x: string, rest: seq<Piece>) {
    IsSafe(x, rest != []) && AreSafe(rest)
  }

  lemma TokenLedForms(x: string, rest: seq<Piece>, i: nat)
    requires IsTokenLed(x, rest) && i < |x|
    ensures var s := x + Join(rest);
            && (TokenAt(s, i) <==> TokenForms(x, i, rest != []))
            && (TokenAt(x, i) ==> TokenAt(s, i) && AfterToken(s, i) == AfterToken(x, i))
            && (TokenAt(s, i) && !TokenAt(x, i) ==>
                  rest != [] && AfterToken(s, i) == |x| + |PieceText(rest[0])|)
  {
    if rest == [] {
      assert x + Join(rest) == x;
      hide StartsAt, NextBracket;
    } else {
      JoinHead(rest);
      FormsBeforeToken(x, rest[0].url, JoinTail(rest), i);
      hide *;
      Associative(x, PieceText(rest[0]), JoinTail(rest));
    }
  }

  predicate IsTextAt(s: string, i: nat) {
    i < |s| && !IsSpace(s[i])
  }

  lemma FormsInText(x: string, i: nat, followed: bool)
    requires TokenForms(x, i, followed)
    ensures IsTextAt(x, i)
  {
    StartIsNoSpace(0);
    assert x[i..i + |TOKEN_START|][0] == x[i];
  }

  /** The first token found is the first that forms in the text, or else the one behind it. */
  lemma FirstTokenFound(x: string, rest: seq<Piece>)
    requires IsTokenLed(x, rest)
    ensures var s, followed := x + Join(rest), rest != [];
            if IsSafe(x, followed) then FindToken(s, 0) == if followed then Some(|x|) else None
            else FindToken(s, 0).Some? && TokenForms(x, FindToken(s, 0).value, followed)
    ensures rest != [] ==> TokenAt(x + Join(rest), |x|) && UrlAt(x + Join(rest), |x|) == rest[0].url
                           && AfterToken(x + Join(rest), |x|) == |x| + |PieceText(rest[0])|
  {
    var s, followed := x + Join(rest), rest != [];
    forall i: nat | i < |x|
      ensures TokenAt(s, i) <==> TokenForms(x, i, followed)
    {
      TokenLedForms(x, rest, i);
    }
    if followed {
      JoinHead(rest);
      Associative(x, PieceText(rest[0]), JoinTail(rest));
      TokenStands(x, rest[0].url, JoinTail(rest), s);
    }
    hide TokenAt, TokenForms, PieceText, JoinTail, IsTokenLed;
    if IsSafe(x, followed) {
      if followed {
        FirstFound(s, 0, |x|);
      } else {
        assert s == x;
      }
    } else {
      var i: nat :| TokenForms(x, i, followed);
      FormsInText(x, i, followed);
      assert TokenAt(s, i);
    }
  }

  lemma BlankLead(lead: string, text: string, tail: string, followed: bool)
    requires IsLead(lead) && IsLead(tail)
    ensures TextPiece(lead + text + tail) == TextPiece(text)
    ensures IsSafe(lead + text + tail, followed) <==> IsSafe(text, followed)
  {
    TrimIgnoresBlank(lead, text, tail);
    SafeBlankEnds(lead, text, tail, followed);
    hide IsSafe, Trim;
  }

  lemma NothingForms(followed: bool)
    ensures IsSafe("", followed) && TextPiece("") == []
  {
  }

  lemma SafeFirst(pieces: seq<Piece>)
    requires pieces != []
    ensures AreSafe(pieces) <==> IsSafeAt(pieces, 0) && AreSafe(pieces[1..])
  {
    hide IsSafe;
    forall i | 0 <= i < |pieces| - 1
      ensures IsSafeAt(pieces[1..], i) <==> IsSafeAt(pieces, i + 1)
    {
    }
    if IsSafeAt(pieces, 0) && AreSafe(pieces[1..]) {
      forall i | 0 <= i < |pieces|
        ensures IsSafeAt(pieces, i)
      {
        if i > 0 {
          assert IsSafeAt(pieces[1..], i - 1);
        }
      }
    }
  }

  lemma RestIsMerged(pieces: seq<Piece>)
    requires IsMerged(pieces) && HoldUrls(pieces) && pieces != []
    ensures IsMerged(pieces[1..]) && HoldUrls(pieces[1..])
    ensures |pieces| > 1 && pieces[0].Text? ==> pieces[1].Token?
  {
    assert forall i :: 0 <= i < |pieces| - 1 ==> pieces[1..][i] == pieces[i + 1];
    if |pieces| > 1 {
      assert !(pieces[0].Text? && pieces[0 + 1].Text?);
    }
  }

  /** Sets a paragraph at the front apart from the pieces behind it. */
  lemma SetApart(lead: string, pieces: seq<Piece>) returns (x: string, rest: seq<Piece>)
    requires IsLead(lead) && IsMerged(pieces) && HoldUrls(pieces)
    ensures |rest| <= |pieces| && lead + Join(pieces) == x + Join(rest) && IsTokenLed(x, rest)
    ensures IsSafeLed(x, rest) <==> AreSafe(pieces)
    ensures TextPiece(x) + Tidy(rest) == Tidy(pieces)
  {
    if pieces == [] || pieces[0].Token? {
      x, rest := lead, pieces;
      BlankLead(lead, "", "", rest != []);
      NothingForms(rest != []);
      assert lead + "" + "" == lead;
      hide IsSafe, TextPiece;
    } else {
      var text := pieces[0].text;
      RestIsMerged(pieces);
      SafeFirst(pieces);
      assert Tidy(pieces) == TextPiece(text) + Tidy(pieces[1..]);
      if |pieces| == 1 {
        x, rest := lead + text + "", [];
        BlankLead(lead, text, "", false);
        hide IsSafe, TextPiece;
        assert lead + text == x && x + "" == x;
      } else {
        x, rest := lead + text + SEPARATOR, pieces[1..];
        BlankLead(lead, text, SEPARATOR, true);
        hide IsSafe, TextPiece;
        TextFirst(lead, text, pieces);
      }
    }
  }

  /** What the text behind an image is parsed to, whatever is set apart of it. */
  lemma {:induction false} ParseLed(x: string, rest: seq<Piece>)
    requires IsTokenLed(x, rest)
    ensures ParsesTo(x + Join(rest), IsSafeLed(x, rest), TextPiece(x) + Tidy(rest))
    decreases |rest|, |x|, 2
  {
    var s, followed := x + Join(rest), rest != [];
    FirstTokenFound(x, rest);
    if !IsSafe(x, followed) {
      ParseFormed(x, rest, FindToken(s, 0).value);
    } else if followed {
      ParseBehind(rest);
      ParseSafeLead(x, rest);
    } else {
      hide IsSafe, TextPiece, FindToken;
      assert s == x && TextPiece(x) + [] == TextPiece(x);
    }
  }

  /** The text behind the image at the front of the pieces. */
  lemma {:induction false} ParseBehind(rest: seq<Piece>)
    requires IsTokenLed("", rest) && rest != []
    ensures ParsesTo(JoinTail(rest), AreSafe(rest), Tidy(rest[1..]))
    decreases |rest|, 0, 0
  {
    RestIsMerged(rest);
    SafeFirst(rest);
    var lead := if |rest| == 1 then "" else SEPARATOR;
    assert JoinTail(rest) == lead + Join(rest[1..]);
    var x, more := SetApart(lead, rest[1..]);
    hide *;
    ParseLed(x, more);
  }

  lemma ParseSafeLead(x: string, rest: seq<Piece>)
    requires IsTokenLed(x, rest) && rest != [] && IsSafe(x, true)
    requires ParsesTo(JoinTail(rest), AreSafe(rest), Tidy(rest[1..]))
    ensures ParsesTo(x + Join(rest), IsSafeLed(x, rest), TextPiece(x) + Tidy(rest))
  {
    hide *;
    LedByToken(x, rest);
    FirstTokenFound(x, rest);
    BehindToken(x, rest);
    Suffix(x, Join(rest), |x|);
    WholeOf(x);
    ParseFirstToken(x + Join(rest), x, rest[0].url, JoinTail(rest));
    ParsesBehindLead(x + Join(rest), x, rest, JoinTail(rest));
  }

  lemma WholeOf<T>(s: seq<T>)
    ensures s[..|s|] == s
  {
  }

  lemma ParsesBehindLead(s: string, x: string, rest: seq<Piece>, tail: string)
    requires rest != [] && rest[0].Token? && IsSafe(x, true)
    requires ParsePieces(s) == TextPiece(x) + [Token(rest[0].url)] + ParsePieces(tail)
    requires ParsesTo(tail, AreSafe(rest), Tidy(rest[1..]))
    ensures ParsesTo(s, IsSafeLed(x, rest), TextPiece(x) + Tidy(rest))
  {
    var token := rest[0];
    assert token == Token(token.url) && Tidy(rest) == [token] + Tidy(rest[1..]);
    hide IsSafe, TextPiece, Tidy, AreSafe, ParsePieces, TextLength;
    Associative(TextPiece(x), [token], Tidy(rest[1..]));
    LengthOfThree(x, token.url, Tidy(rest[1..]));
    LengthOfThree(x, token.url, ParsePieces(tail));
  }

  lemma ParseFirstToken(s: string, x: string, url: string, tail: string)
    requires FindToken(s, 0) == Some(|x|) && UrlAt(s, |x|) == url
    requires s[..|x|] == x && s[AfterToken(s, |x|)..] == tail
    ensures ParsePieces(s) == TextPiece(x) + [Token(url)] + ParsePieces(tail)
  {
    hide *;
    ParseUnfold(s, |x|);
  }

  lemma BehindToken(x: string, rest: seq<Piece>)
    requires rest != []
    ensures |x| + |PieceText(rest[0])| <= |x + Join(rest)|
    ensures (x + Join(rest))[|x| + |PieceText(rest[0])|..] == JoinTail(rest)
  {
    JoinHead(rest);
    hide *;
    Associative(x, PieceText(rest[0]), JoinTail(rest));
  }

  /** A token that forms in the text takes some of it away. */
  lemma {:induction false} ParseFormed(x: string, rest: seq<Piece>, i: nat)
    requires IsTokenLed(x, rest) && FindToken(x + Join(rest), 0) == Some(i) && TokenForms(x, i, rest != [])
    ensures TextLength(ParsePieces(x + Join(rest))) < TextLength(TextPiece(x) + Tidy(rest))
    decreases |rest|, |x|, 1
  {
    FormsInText(x, i, rest != []);
    TokenLedForms(x, rest, i);
    if TokenAt(x, i) {
      hide *;
      ParseClosed(x, rest, i, AfterToken(x, i));
    } else {
      hide *;
      ParseOpen(x, rest, i);
    }
  }

  lemma {:induction false} ParseClosed(x: string, rest: seq<Piece>, i: nat, j: nat)
    requires IsTokenLed(x, rest) && i < j <= |x| && IsTextAt(x, i)
    requires FindToken(x + Join(rest), 0) == Some(i) && AfterToken(x + Join(rest), i) == j
    ensures TextLength(ParsePieces(x + Join(rest))) < TextLength(TextPiece(x) + Tidy(rest))
    decreases |rest|, |x|, 0
  {
    EndsLineAfter(x, j);
    Suffix(x, Join(rest), i);
    Suffix(x, Join(rest), j);
    hide *;
    ParseLed(x[j..], rest);
    LengthOfTwo(x[j..], Tidy(rest));
    CutText(x + Join(rest), x, i, j, j, Tidy(rest));
  }

  lemma {:induction false} ParseOpen(x: string, rest: seq<Piece>, i: nat)
    requires IsTokenLed(x, rest) && rest != [] && i < |x| && IsTextAt(x, i)
    requires FindToken(x + Join(rest), 0) == Some(i) && AfterToken(x + Join(rest), i) == |x| + |PieceText(rest[0])|
    ensures TextLength(ParsePieces(x + Join(rest))) < TextLength(TextPiece(x) + Tidy(rest))
    decreases |rest|, |x|, 0
  {
    hide *;
    Suffix(x, Join(rest), i);
    BehindToken(x, rest);
    RestOfOpen(x, rest);
    CutText(x + Join(rest), x, i, |x| + |PieceText(rest[0])|, |x|, Tidy(rest));
  }

  lemma {:induction false} RestOfOpen(x: string, rest: seq<Piece>)
    requires IsTokenLed(x, rest) && rest != []
    ensures TextLength(ParsePieces(JoinTail(rest))) <= TextLength(Tidy(rest))
    decreases |rest|, 0, 1
  {
    LedByToken(x, rest);
    hide *;
    ParseBehind(rest);
    LengthBehind(JoinTail(rest), AreSafe(rest), rest);
  }

  lemma LedByToken(x: string, rest: seq<Piece>)
    requires IsTokenLed(x, rest) && rest != []
    ensures IsTokenLed("", rest) && rest[0].Token?
  {
  }

  lemma LengthBehind(tail: string, safe: bool, rest: seq<Piece>)
    requires rest != [] && rest[0].Token? && ParsesTo(tail, safe, Tidy(rest[1..]))
    ensures TextLength(ParsePieces(tail)) <= TextLength(Tidy(rest))
  {
    assert Tidy(rest) == [rest[0]] + Tidy(rest[1..]);
    hide Tidy, ParsePieces, TextLength;
    LengthOfImage(rest[0].url, Tidy(rest[1..]));
  }

  lemma Suffix<T>(s: seq<T>, tail: seq<T>, j: nat)
    requires j <= |s|
    ensures (s + tail)[j..] == s[j..] + tail && (s + tail)[..j] == s[..j]
  {
  }

  /** The text up to a formed token and what is shown of the rest is less than the text was. */
  lemma CutText(s: string, x: string, i: nat, j: nat, k: nat, tidy: seq<Piece>)
    requires FindToken(s, 0) == Some(i) && j == AfterToken(s, i) && i < k <= |x| && s[..i] == x[..i]
    requires IsTextAt(x, i) && TextLength(ParsePieces(s[j..])) <= |Trim(x[k..])| + TextLength(tidy)
    ensures TextLength(ParsePieces(s)) < TextLength(TextPiece(x) + tidy)
  {
    CutShrinks(x, i, k);
    hide *;
    ParseUnfold(s, i);
    LengthOfThree(s[..i], UrlAt(s, i), ParsePieces(s[j..]));
    LengthOfTwo(x, tidy);
  }

  lemma EndsLineAfter(x: string, j: nat)
    requires j <= |x|
    ensures EndsLine(x) ==> EndsLine(x[j..])
  {
  }

  lemma LengthOfTwo(s: string, rest: seq<Piece>)
    ensures TextLength(TextPiece(s) + rest) == |Trim(s)| + TextLength(rest)
  {
    hide TextPiece;
    TextLengthConcat(TextPiece(s), rest);
    TextPieceLength(s);
  }

  lemma LengthOfImage(url: string, rest: seq<Piece>)
    ensures TextLength([Token(url)] + rest) == TextLength(rest)
  {
    assert ([Token(url)] + rest)[1..] == rest;
  }

  // ---------- What was printed ----------

  lemma {:induction false} MergedHoldsUrls(pieces: seq<Piece>)
    requires HoldUrls(pieces)
    ensures IsMerged(Merge(pieces)) && HoldUrls(Merge(pieces))
  {
    if |pieces| >= 2 {
      MergedHoldsUrls(pieces[1..]);
      hide IsUrl;
    }
  }

  /** Parsing a printed text gives its pieces, with adjacent paragraphs merged, each trimmed and the blank ones dropped,
      exactly if no token forms in a merged paragraph. Else less text is shown. */
  lemma ParsePrintedExactly(pieces: seq<Piece>)
    requires HoldUrls(pieces)
    ensures ParsePieces(Trim(Join(pieces))) == Tidy(Merge(pieces)) <==> AreSafe(Merge(pieces))
    ensures ParsesTo(Trim(Join(pieces)), AreSafe(Merge(pieces)), Tidy(Merge(pieces)))
  {
    var merged := Merge(pieces);
    MergedHoldsUrls(pieces);
    JoinMerged(pieces);
    TrimKeepsPieces(Join(pieces));
    var x, rest := SetApart("", merged);
    ParseLed(x, rest);
    assert "" + Join(merged) == Join(merged);
    hide IsMerged, HoldUrls, AreSafe, IsSafeLed, IsTokenLed, Merge, Tidy, TextPiece, ParsePieces, TextLength, Join;
    hide Trim;
  }
}
