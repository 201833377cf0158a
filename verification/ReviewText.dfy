/** Review blocks, printed as one text with image tokens and parsed back
    (legacyApiAdapter.ts `reviewContent`, `reviewMedia`; legacyMappers.ts `mapLegacyReview`). */
module ReviewText {
  import opened Wrappers

  datatype Block = Paragraph(text: string) | Image(mediaId: string)

  datatype Media = Media(id: string, url: string)

  /** What stands in the text: a paragraph, or the token of an image. */
  datatype Piece = Text(text: string) | Token(url: string)

  const TOKEN_START: string := "[[METROTRIP_IMAGE:"
  const SEPARATOR: string := "\n\n"

  // ---------- Trimming ----------

  /** The characters that JavaScript's trim removes: white space and line ends. */
  predicate IsSpace(c: char)
    ensures IsSpace(c) <==> c as int in {0x9, 0xA, 0xB, 0xC, 0xD, 0x20, 0xA0, 0x1680, 0x2028, 0x2029, 0x202F, 0x205F,
                                         0x3000, 0xFEFF} || 0x2000 <= c as int <= 0x200A
  {
    || '\t' <= c <= '\r' || c == ' ' || c == '\U{A0}' || c == '\U{1680}' || '\U{2000}' <= c <= '\U{200A}'
    || c == '\U{2028}' || c == '\U{2029}' || c == '\U{202F}' || c == '\U{205F}' || c == '\U{3000}' || c == '\U{FEFF}'
  }

  function TrimStart(s: string): string {
    if s != "" && IsSpace(s[0]) then TrimStart(s[1..]) else s
  }

  function TrimEnd(s: string): string {
    if s != "" && IsSpace(s[|s| - 1]) then TrimEnd(s[..|s| - 1]) else s
  }

  function Trim(s: string): string {
    TrimEnd(TrimStart(s))
  }

  predicate IsBlank(s: string) {
    forall i :: 0 <= i < |s| ==> IsSpace(s[i])
  }

  /** Not empty, with no space at either end. */
  predicate IsTrimmed(s: string) {
    s != "" && !IsSpace(s[0]) && !IsSpace(s[|s| - 1])
  }

  lemma {:induction false} TrimStartBlank(lead: string, s: string)
    requires IsBlank(lead) && (s == "" || !IsSpace(s[0]))
    ensures TrimStart(lead + s) == s
  {
    if lead == "" {
      assert lead + s == s;
    } else {
      assert (lead + s)[1..] == lead[1..] + s;
      TrimStartBlank(lead[1..], s);
    }
  }

  lemma {:induction false} TrimEndBlank(s: string, tail: string)
    requires IsBlank(tail) && (s == "" || !IsSpace(s[|s| - 1]))
    ensures TrimEnd(s + tail) == s
  {
    if tail == "" {
      assert s + tail == s;
    } else {
      assert (s + tail)[..|s + tail| - 1] == s + tail[..|tail| - 1];
      TrimEndBlank(s, tail[..|tail| - 1]);
    }
  }

  /** Trimming takes away exactly the blank ends. */
  lemma TrimBlankEnds(lead: string, s: string, tail: string)
    requires IsBlank(lead) && IsBlank(tail) && (s == "" || IsTrimmed(s))
    ensures Trim(lead + s + tail) == s
  {
    if s == "" {
      assert lead + s + tail == (lead + tail) + "";
      TrimStartBlank(lead + tail, "");
    } else {
      assert lead + s + tail == lead + (s + tail);
      TrimStartBlank(lead, s + tail);
      TrimEndBlank(s, tail);
    }
  }

  // ---------- Tokens ----------

  predicate StartsAt(s: string, i: nat) {
    i + |TOKEN_START| <= |s| && s[i..i + |TOKEN_START|] == TOKEN_START
  }

  /** Where the next `]` is, from i on. */
  function NextBracket(s: string, i: nat): (j: nat)
    requires i <= |s|
    ensures i <= j <= |s| && forall k :: i <= k < j ==> s[k] != ']'
    ensures j < |s| ==> s[j] == ']'
    decreases |s| - i
  {
    if i == |s| || s[i] == ']' then i else NextBracket(s, i + 1)
  }

  /** An image token starts at i: its url, up to the next `]`, is not empty and is closed by two of them. */
  predicate TokenAt(s: string, i: nat) {
    StartsAt(s, i)
    && var start := i + |TOKEN_START|;
       var end := NextBracket(s, start);
       start < end && end + 1 < |s| && s[end + 1] == ']'
  }

  /** The leftmost token from i on. */
  function FindToken(s: string, i: nat): (r: Option<nat>)
    requires i <= |s|
    ensures r.Some? ==> i <= r.value < |s| && TokenAt(s, r.value)
    ensures forall k: nat :: i <= k < (if r.Some? then r.value else |s|) ==> !TokenAt(s, k)
    decreases |s| - i
  {
    if i == |s| then None else if TokenAt(s, i) then Some(i) else FindToken(s, i + 1)
  }

  function UrlAt(s: string, i: nat): string
    requires TokenAt(s, i)
  {
    s[i + |TOKEN_START|..NextBracket(s, i + |TOKEN_START|)]
  }

  function AfterToken(s: string, i: nat): (j: nat)
    requires TokenAt(s, i)
    ensures i < j <= |s|
  {
    NextBracket(s, i + |TOKEN_START|) + 2
  }

  function TextPiece(s: string): seq<Piece> {
    if Trim(s) != "" then [Text(Trim(s))] else []
  }

  /** The pieces of a text, from its start. */
  function ParsePieces(s: string): seq<Piece>
    decreases |s|
  {
    var token := FindToken(s, 0);
    if token.None? then TextPiece(s)
    else
      var i := token.value;
      TextPiece(s[..i]) + [Token(UrlAt(s, i))] + ParsePieces(s[AfterToken(s, i)..])
  }

  // ---------- Printing ----------

  function PieceText(p: Piece): string {
    match p
    case Text(text) => text
    case Token(url) => TOKEN_START + url + "]]"
  }

  function Join(pieces: seq<Piece>): string {
    if pieces == [] then ""
    else if |pieces| == 1 then PieceText(pieces[0])
    else PieceText(pieces[0]) + SEPARATOR + Join(pieces[1..])
  }

  /** Adjacent paragraphs become one, separated by an empty line. */
  function Merge(pieces: seq<Piece>): (merged: seq<Piece>)
    ensures pieces != [] ==> merged != [] && (pieces[0].Text? <==> merged[0].Text?)
    ensures |merged| <= |pieces|
  {
    if |pieces| < 2 then pieces
    else
      var rest := Merge(pieces[1..]);
      if pieces[0].Text? && rest[0].Text? then [Text(pieces[0].text + SEPARATOR + rest[0].text)] + rest[1..]
      else [pieces[0]] + rest
  }

  ghost predicate IsMerged(pieces: seq<Piece>) {
    forall i :: 0 <= i < |pieces| - 1 ==> !(pieces[i].Text? && pieces[i + 1].Text?)
  }

  lemma {:induction false} JoinMerged(pieces: seq<Piece>)
    ensures Join(Merge(pieces)) == Join(pieces)
  {
    if |pieces| >= 2 {
      var rest := Merge(pieces[1..]);
      JoinMerged(pieces[1..]);
      if pieces[0].Text? && rest[0].Text? {
        var merged := [Text(pieces[0].text + SEPARATOR + rest[0].text)] + rest[1..];
        assert Merge(pieces) == merged;
        assert merged[1..] == rest[1..];
        JoinHead(rest);
        JoinHead(merged);
      } else {
        assert ([pieces[0]] + rest)[1..] == rest;
      }
    }
  }

  /** What follows the first piece. */
  function JoinTail(pieces: seq<Piece>): string
    requires pieces != []
  {
    if |pieces| == 1 then "" else SEPARATOR + Join(pieces[1..])
  }

  lemma JoinHead(pieces: seq<Piece>)
    requires pieces != []
    ensures Join(pieces) == PieceText(pieces[0]) + JoinTail(pieces)
  {
  }

  // ---------- Parsing what was printed ----------

  lemma TokenStands(lead: string, url: string, tail: string, s: string)
    requires url != "" && ']' !in url && s == lead + (TOKEN_START + url + "]]") + tail
    ensures TokenAt(s, |lead|) && UrlAt(s, |lead|) == url
    ensures AfterToken(s, |lead|) == |lead| + |TOKEN_START| + |url| + 2
  {
    var start, end := |lead| + |TOKEN_START|, |lead| + |TOKEN_START| + |url|;
    assert s[|lead|..start] == TOKEN_START;
    assert s[start..end] == url;
    assert forall k :: start <= k < end ==> s[k] == s[start..end][k - start];
    assert s[end] == ']' && s[end + 1] == ']';
    BracketAt(s, start, end);
  }

  lemma BracketAt(s: string, i: nat, j: nat)
    requires i <= j < |s| && s[j] == ']' && forall k :: i <= k < j ==> s[k] != ']'
    ensures NextBracket(s, i) == j
  {
  }

  lemma FirstFound(s: string, i: nat, j: nat)
    requires i <= j < |s| && TokenAt(s, j) && forall k: nat :: i <= k < j ==> !TokenAt(s, k)
    ensures FindToken(s, i) == Some(j)
  {
  }

  /** The lead of the text that is left after a token: nothing, or the separator. */
  predicate IsLead(lead: string) {
    lead == "" || lead == SEPARATOR
  }

  lemma TextFirst(lead: string, text: string, pieces: seq<Piece>)
    requires |pieces| > 1 && pieces[0] == Text(text)
    ensures lead + Join(pieces) == (lead + text + SEPARATOR) + Join(pieces[1..])
    ensures [Text(text)] + pieces[1..] == pieces
  {
    assert Join(pieces) == text + SEPARATOR + Join(pieces[1..]);
    hide Join;
    Associative(lead, text + SEPARATOR, Join(pieces[1..]));
    Associative(lead, text, SEPARATOR);
  }

  lemma Associative<T>(a: seq<T>, b: seq<T>, c: seq<T>)
    ensures a + (b + c) == a + b + c
  {
  }

  // ---------- Printing blocks ----------

  /** The claimed media: what an image block's id stands for. */
  type Claims = map<string, string>

  predicate IsClaimed(id: string, claims: Claims) {
    id != "" && id in claims
  }

  function BlockText(b: Block, claims: Claims): string {
    match b
    case Paragraph(text) => text
    case Image(id) => if IsClaimed(id, claims) then TOKEN_START + claims[id] + "]]" else ""
  }

  function NonEmpty(texts: seq<string>): seq<string> {
    if texts == [] then [] else (if texts[0] != "" then [texts[0]] else []) + NonEmpty(texts[1..])
  }

  function JoinTexts(texts: seq<string>): string {
    if texts == [] then ""
    else if |texts| == 1 then texts[0]
    else texts[0] + SEPARATOR + JoinTexts(texts[1..])
  }

  function ReviewContent(blocks: seq<Block>, claims: Claims): string {
    Trim(JoinTexts(NonEmpty(Texts(blocks, claims))))
  }

  /** The ids whose media are sent along, each once, in the order in which they are first met. */
  function MediaIds(blocks: seq<Block>, n: nat): seq<string>
    requires n <= |blocks|
  {
    if n == 0 then []
    else
      var b, ids := blocks[n - 1], MediaIds(blocks, n - 1);
      if b.Image? && b.mediaId != "" then AddId(ids, b.mediaId) else ids
  }

  function AddId(ids: seq<string>, id: string): seq<string> {
    if id in ids then ids else ids + [id]
  }

  function SentIds(blocks: seq<Block>, coverMediaId: string): seq<string> {
    var ids := MediaIds(blocks, |blocks|);
    if coverMediaId != "" then AddId(ids, coverMediaId) else ids
  }

  function Urls(ids: seq<string>, claims: Claims): seq<string> {
    if ids == [] then [] else (if ids[0] in claims then [claims[ids[0]]] else []) + Urls(ids[1..], claims)
  }

  method ReviewMedia(blocks: seq<Block>, coverMediaId: string, claims: Claims) returns (urls: seq<string>)
    ensures urls == Urls(SentIds(blocks, coverMediaId), claims)
    ensures SentAsMet(blocks, coverMediaId, claims, urls, |blocks| + 1)
  {
    ghost var at := SentInOrder(blocks, coverMediaId, claims);
    hide SendsInOrder;
    var ids: seq<string> := [];
    for i := 0 to |blocks|
      invariant ids == MediaIds(blocks, i)
    {
      if blocks[i].Image? && blocks[i].mediaId != "" {
        ids := AddId(ids, blocks[i].mediaId);
      }
    }
    if coverMediaId != "" {
      ids := AddId(ids, coverMediaId);
    }
    urls := Urls(ids, claims);
  }

  lemma {:induction false} MediaIdsFacts(blocks: seq<Block>, n: nat)
    requires n <= |blocks|
    ensures forall id :: id in MediaIds(blocks, n) <==> id != "" && Image(id) in blocks[..n]
    ensures forall i, j :: 0 <= i < j < |MediaIds(blocks, n)| ==> MediaIds(blocks, n)[i] != MediaIds(blocks, n)[j]
  {
    if n > 0 {
      MediaIdsFacts(blocks, n - 1);
      assert blocks[..n] == blocks[..n - 1] + [blocks[n - 1]];
    }
  }

  lemma {:induction false} UrlsFacts(ids: seq<string>, claims: Claims)
    ensures forall url :: url in Urls(ids, claims) <==> exists id :: id in ids && id in claims && claims[id] == url
  {
    if ids != [] {
      UrlsFacts(ids[1..], claims);
      assert ids == [ids[0]] + ids[1..];
    }
  }

  predicate IsSent(id: string, blocks: seq<Block>, coverMediaId: string, claims: Claims) {
    IsClaimed(id, claims) && (Image(id) in blocks || id == coverMediaId)
  }

  /** The media sent with a review are those of its claimed images and of its claimed cover; none is sent twice. */
  lemma SentMediaExactly(blocks: seq<Block>, coverMediaId: string, claims: Claims)
    ensures forall url :: url in Urls(SentIds(blocks, coverMediaId), claims)
              <==> (exists id :: IsSent(id, blocks, coverMediaId, claims) && claims[id] == url)
    ensures var ids := SentIds(blocks, coverMediaId); forall i, j :: 0 <= i < j < |ids| ==> ids[i] != ids[j]
  {
    var ids := SentIds(blocks, coverMediaId);
    MediaIdsFacts(blocks, |blocks|);
    assert blocks[..|blocks|] == blocks;
    UrlsFacts(ids, claims);
    assert forall id :: id in ids <==> id != "" && (Image(id) in blocks || id == coverMediaId);
    assert forall id :: IsSent(id, blocks, coverMediaId, claims) <==> id in ids && id in claims;
  }

  /** The media id that is met at position p: those of the image blocks, then that of the cover. */
  function IdAt(blocks: seq<Block>, coverMediaId: string, p: nat): string {
    if p >= |blocks| then coverMediaId else if blocks[p].Image? then blocks[p].mediaId else ""
  }

  /** The id at p is a claimed one that is met there first. */
  predicate SendsAt(blocks: seq<Block>, coverMediaId: string, claims: Claims, p: nat) {
    && IsClaimed(IdAt(blocks, coverMediaId, p), claims)
    && forall q: nat :: q < p ==> IdAt(blocks, coverMediaId, q) != IdAt(blocks, coverMediaId, p)
  }

  /** The urls are those of the claimed ids met before position n, each where it is met first, in order. */
  ghost predicate SendsInOrder(blocks: seq<Block>, coverMediaId: string, claims: Claims, urls: seq<string>, n: nat,
                               at: seq<nat>)
  {
    && |at| == |urls| && (forall i, j :: 0 <= i < j < |at| ==> at[i] < at[j])
    && (forall k :: 0 <= k < |at| ==>
          && at[k] < n && SendsAt(blocks, coverMediaId, claims, at[k])
          && urls[k] == claims[IdAt(blocks, coverMediaId, at[k])])
    && (forall p: nat :: p < n && SendsAt(blocks, coverMediaId, claims, p) ==> p in at)
  }

  ghost predicate SentAsMet(blocks: seq<Block>, coverMediaId: string, claims: Claims, urls: seq<string>, n: nat) {
    exists at :: SendsInOrder(blocks, coverMediaId, claims, urls, n, at)
  }

  lemma {:induction false} UrlsGrow(ids: seq<string>, id: string, claims: Claims)
    ensures Urls(ids + [id], claims) == if id in claims then Urls(ids, claims) + [claims[id]] else Urls(ids, claims)
  {
    if ids == [] {
      assert [id][1..] == [];
    } else {
      assert (ids + [id])[1..] == ids[1..] + [id];
      UrlsGrow(ids[1..], id, claims);
    }
  }

  lemma SendOne(blocks: seq<Block>, coverMediaId: string, claims: Claims, urls: seq<string>, n: nat, at: seq<nat>)
    requires SendsInOrder(blocks, coverMediaId, claims, urls, n, at) && SendsAt(blocks, coverMediaId, claims, n)
    ensures SendsInOrder(blocks, coverMediaId, claims, urls + [claims[IdAt(blocks, coverMediaId, n)]], n + 1, at + [n])
  {
    hide IdAt, SendsAt;
    assert forall p :: p in at ==> p in at + [n];
    assert (at + [n])[|at|] == n;
  }

  lemma SendNone(blocks: seq<Block>, coverMediaId: string, claims: Claims, urls: seq<string>, n: nat, at: seq<nat>)
    requires SendsInOrder(blocks, coverMediaId, claims, urls, n, at) && !SendsAt(blocks, coverMediaId, claims, n)
    ensures SendsInOrder(blocks, coverMediaId, claims, urls, n + 1, at)
  {
    hide IdAt, SendsAt;
  }

  /** The ids met before position n. */
  ghost predicate AreMet(blocks: seq<Block>, coverMediaId: string, ids: seq<string>, n: nat) {
    forall id :: id in ids <==> id != "" && exists q: nat :: q < n && IdAt(blocks, coverMediaId, q) == id
  }

  lemma SendsIfNew(blocks: seq<Block>, coverMediaId: string, claims: Claims, ids: seq<string>, n: nat)
    requires AreMet(blocks, coverMediaId, ids, n)
    ensures var id := IdAt(blocks, coverMediaId, n);
            SendsAt(blocks, coverMediaId, claims, n) <==> IsClaimed(id, claims) && id !in ids
  {
    hide IdAt;
  }

  /** The urls after the id at position n, which may have been met before. */
  lemma SendsNext(blocks: seq<Block>, coverMediaId: string, claims: Claims, ids: seq<string>, n: nat, at: seq<nat>,
                  now: seq<string>)
    returns (at': seq<nat>)
    requires SendsInOrder(blocks, coverMediaId, claims, Urls(ids, claims), n, at)
    requires var id := IdAt(blocks, coverMediaId, n); now == if id != "" then AddId(ids, id) else ids
    requires AreMet(blocks, coverMediaId, ids, n)
    ensures SendsInOrder(blocks, coverMediaId, claims, Urls(now, claims), n + 1, at')
  {
    hide IdAt, SendsAt, SendsInOrder, AreMet, Urls;
    UrlsGrow(ids, IdAt(blocks, coverMediaId, n), claims);
    SendsIfNew(blocks, coverMediaId, claims, ids, n);
    if SendsAt(blocks, coverMediaId, claims, n) {
      at' := at + [n];
      SendOne(blocks, coverMediaId, claims, Urls(ids, claims), n, at);
    } else {
      at' := at;
      SendNone(blocks, coverMediaId, claims, Urls(ids, claims), n, at);
    }
  }

  lemma MetIds(blocks: seq<Block>, coverMediaId: string, n: nat)
    requires n <= |blocks|
    ensures AreMet(blocks, coverMediaId, MediaIds(blocks, n), n)
  {
    MediaIdsFacts(blocks, n);
    forall id | id != ""
      ensures Image(id) in blocks[..n] <==> exists q: nat :: q < n && IdAt(blocks, coverMediaId, q) == id
    {
      if Image(id) in blocks[..n] {
        var q :| 0 <= q < n && blocks[..n][q] == Image(id);
        assert IdAt(blocks, coverMediaId, q) == id;
      }
      if q: nat :| q < n && IdAt(blocks, coverMediaId, q) == id {
        assert blocks[..n][q] == Image(id);
      }
    }
  }

  lemma {:induction false} MediaInOrder(blocks: seq<Block>, coverMediaId: string, claims: Claims, n: nat)
    returns (at: seq<nat>)
    requires n <= |blocks|
    ensures SendsInOrder(blocks, coverMediaId, claims, Urls(MediaIds(blocks, n), claims), n, at)
  {
    hide SendsInOrder, Urls, AreMet;
    if n == 0 {
      at := [];
      NothingSent(blocks, coverMediaId, claims);
    } else {
      at := MediaInOrder(blocks, coverMediaId, claims, n - 1);
      MetIds(blocks, coverMediaId, n - 1);
      at := SendsNext(blocks, coverMediaId, claims, MediaIds(blocks, n - 1), n - 1, at, MediaIds(blocks, n));
    }
  }

  lemma NothingSent(blocks: seq<Block>, coverMediaId: string, claims: Claims)
    ensures SendsInOrder(blocks, coverMediaId, claims, Urls([], claims), 0, [])
  {
  }

  /** The media are sent in the order in which their ids are first met, the cover last. */
  lemma SentInOrder(blocks: seq<Block>, coverMediaId: string, claims: Claims) returns (at: seq<nat>)
    ensures SendsInOrder(blocks, coverMediaId, claims, Urls(SentIds(blocks, coverMediaId), claims), |blocks| + 1, at)
  {
    hide SendsInOrder, Urls, AreMet;
    at := MediaInOrder(blocks, coverMediaId, claims, |blocks|);
    MetIds(blocks, coverMediaId, |blocks|);
    at := SendsNext(blocks, coverMediaId, claims, MediaIds(blocks, |blocks|), |blocks|, at,
                    SentIds(blocks, coverMediaId));
  }

  // ---------- What is printed ----------

  /** The text of a block: a paragraph, or the token of a claimed image. */
  ghost predicate PrintsAs(b: Block, claims: Claims, text: string) {
    && (b.Paragraph? ==> text == b.text)
    && (b.Image? && IsClaimed(b.mediaId, claims) ==> text == "[[METROTRIP_IMAGE:" + claims[b.mediaId] + "]]")
    && (b.Image? && !IsClaimed(b.mediaId, claims) ==> text == "")
  }

  ghost predicate PrintsTrimmed(blocks: seq<Block>, claims: Claims) {
    forall i :: 0 <= i < |blocks| ==> BlockText(blocks[i], claims) == "" || IsTrimmed(BlockText(blocks[i], claims))
  }

  function Texts(blocks: seq<Block>, claims: Claims): seq<string> {
    seq(|blocks|, i requires 0 <= i < |blocks| => BlockText(blocks[i], claims))
  }

  lemma {:induction false} NonEmptyGrows(texts: seq<string>, text: string)
    ensures NonEmpty(texts + [text]) == if text != "" then NonEmpty(texts) + [text] else NonEmpty(texts)
  {
    if texts == [] {
      assert [text][1..] == [];
    } else {
      assert (texts + [text])[1..] == texts[1..] + [text];
      NonEmptyGrows(texts[1..], text);
    }
  }

  lemma {:induction false} JoinTextsGrows(texts: seq<string>, text: string)
    ensures JoinTexts(texts + [text]) == (if texts == [] then "" else JoinTexts(texts) + "\n\n") + text
  {
    if texts != [] {
      assert (texts + [text])[1..] == texts[1..] + [text];
      JoinTextsGrows(texts[1..], text);
    }
  }

  lemma {:induction false} JoinTextsTrimmed(texts: seq<string>)
    requires forall i :: 0 <= i < |texts| ==> IsTrimmed(texts[i])
    ensures texts != [] ==> IsTrimmed(JoinTexts(texts)) && JoinTexts(texts) != ""
    ensures Trim(JoinTexts(texts)) == JoinTexts(texts)
  {
    if |texts| > 1 {
      JoinTextsTrimmed(texts[1..]);
    }
    TrimBlankEnds("", JoinTexts(texts), "");
    assert "" + JoinTexts(texts) + "" == JoinTexts(texts);
  }

  lemma {:induction false} NonEmptyTrimmed(texts: seq<string>)
    requires forall i :: 0 <= i < |texts| ==> texts[i] == "" || IsTrimmed(texts[i])
    ensures forall i :: 0 <= i < |NonEmpty(texts)| ==> IsTrimmed(NonEmpty(texts)[i])
  {
    hide IsTrimmed;
    if texts != [] {
      NonEmptyTrimmed(texts[1..]);
    }
  }

  /** Block by block: every block that has a text adds it, after an empty line unless it is the first. */
  lemma ContentGrows(blocks: seq<Block>, b: Block, claims: Claims, text: string)
    requires PrintsTrimmed(blocks, claims) && PrintsAs(b, claims, text) && (text == "" || IsTrimmed(text))
    ensures ReviewContent(blocks + [b], claims)
         == if text == "" then ReviewContent(blocks, claims)
            else if ReviewContent(blocks, claims) == "" then text
            else ReviewContent(blocks, claims) + "\n\n" + text
  {
    var texts := Texts(blocks, claims);
    assert BlockText(b, claims) == text;
    hide BlockText, Trim, IsTrimmed, NonEmpty, JoinTexts;
    NothingPrinted(claims);
    assert Texts(blocks + [b], claims) == texts + [text];
    NonEmptyTrimmed(texts);
    NonEmptyTrimmed(texts + [text]);
    NonEmptyGrows(texts, text);
    JoinTextsGrows(NonEmpty(texts), text);
    JoinTextsTrimmed(NonEmpty(texts));
    JoinTextsTrimmed(NonEmpty(texts + [text]));
  }

  lemma NothingPrinted(claims: Claims)
    ensures JoinTexts([]) == "" && ReviewContent([], claims) == ""
  {
    assert Texts([], claims) == [];
  }

  // ---------- Parsing blocks ----------

  /** The first medium of a url. */
  function FindMedia(media: seq<Media>, url: string): (r: Option<Media>)
    ensures r.Some? ==> r.value in media && r.value.url == url
    ensures r.None? ==> forall m :: m in media ==> m.url != url
  {
    if media == [] then None else if media[0].url == url then Some(media[0]) else FindMedia(media[1..], url)
  }

  function PieceBlocks(p: Piece, media: seq<Media>): seq<Block> {
    match p
    case Text(text) => [Paragraph(text)]
    case Token(url) => if FindMedia(media, url).Some? then [Image(FindMedia(media, url).value.id)] else []
  }

  function ToBlocks(pieces: seq<Piece>, media: seq<Media>): seq<Block> {
    if pieces == [] then [] else PieceBlocks(pieces[0], media) + ToBlocks(pieces[1..], media)
  }

  function Images(media: seq<Media>): (blocks: seq<Block>)
    ensures |blocks| == |media| && forall i :: 0 <= i < |media| ==> blocks[i] == Image(media[i].id)
  {
    seq(|media|, i requires 0 <= i < |media| => Image(media[i].id))
  }

  predicate HasImage(blocks: seq<Block>) {
    exists i :: 0 <= i < |blocks| && blocks[i].Image?
  }

  /** Without an image in the text, all media are shown after it. */
  function WithImages(blocks: seq<Block>, media: seq<Media>): seq<Block> {
    if HasImage(blocks) then blocks else blocks + Images(media)
  }

  function ParsedBlocks(content: string, media: seq<Media>): seq<Block> {
    WithImages(ToBlocks(ParsePieces(content), media), media)
  }

  lemma {:induction false} NextBracketShift(s: string, c: nat, i: nat)
    requires c + i <= |s|
    ensures NextBracket(s[c..], i) + c == NextBracket(s, c + i)
    decreases |s| - i
  {
    if c + i < |s| && s[c + i] != ']' {
      NextBracketShift(s, c, i + 1);
    }
  }

  lemma TokenShift(s: string, c: nat, i: nat)
    requires c + i <= |s|
    ensures TokenAt(s[c..], i) <==> TokenAt(s, c + i)
    ensures TokenAt(s, c + i) ==>
              UrlAt(s[c..], i) == UrlAt(s, c + i) && AfterToken(s[c..], i) + c == AfterToken(s, c + i)
  {
    var t := s[c..];
    if i + |TOKEN_START| <= |t| {
      assert t[i..i + |TOKEN_START|] == s[c + i..c + i + |TOKEN_START|];
      NextBracketShift(s, c, i + |TOKEN_START|);
    }
  }

  lemma {:induction false} FindTokenShift(s: string, c: nat, i: nat)
    requires c + i <= |s|
    ensures FindToken(s[c..], i)
            == if FindToken(s, c + i).Some? then Some(FindToken(s, c + i).value - c) else None
    decreases |s| - i
  {
    hide TokenAt;
    if c + i < |s| {
      TokenShift(s, c, i);
      FindTokenShift(s, c, i + 1);
    }
  }

  lemma ParseUnfold(t: string, i: nat)
    requires FindToken(t, 0) == Some(i)
    ensures ParsePieces(t) == TextPiece(t[..i]) + [Token(UrlAt(t, i))] + ParsePieces(t[AfterToken(t, i)..])
  {
    hide FindToken, TokenAt, TextPiece, UrlAt, AfterToken;
  }

  /** How the parse of the rest starts, in terms of the whole text. */
  lemma ParseFrom(s: string, cursor: nat, i: nat)
    requires cursor <= |s| && FindToken(s, cursor) == Some(i)
    ensures ParsePieces(s[cursor..])
            == TextPiece(s[cursor..i]) + [Token(UrlAt(s, i))] + ParsePieces(s[AfterToken(s, i)..])
  {
    hide *;
    var t, k := s[cursor..], i - cursor;
    SameToken(s, cursor, i, t, k);
    ParseUnfold(t, k);
  }

  lemma SameToken(s: string, cursor: nat, i: nat, t: string, k: nat)
    requires cursor <= |s| && FindToken(s, cursor) == Some(i) && t == s[cursor..] && k == i - cursor
    ensures FindToken(t, 0) == Some(k) && t[..k] == s[cursor..i] && UrlAt(t, k) == UrlAt(s, i)
    ensures t[AfterToken(t, k)..] == s[AfterToken(s, i)..]
  {
    hide *;
    FindTokenShift(s, cursor, 0);
    TokenShift(s, cursor, k);
    SliceSuffix(s, cursor, k);
    SliceSuffix(s, cursor, AfterToken(t, k));
  }

  lemma SliceSuffix<T>(s: seq<T>, c: nat, k: nat)
    requires c + k <= |s|
    ensures s[c..][..k] == s[c..c + k] && s[c..][k..] == s[c + k..]
  {
  }

  lemma ParseEnd(s: string, cursor: nat)
    requires cursor <= |s| && FindToken(s, cursor) == None
    ensures ParsePieces(s[cursor..]) == TextPiece(s[cursor..])
  {
    FindTokenShift(s, cursor, 0);
    hide FindToken, TextPiece;
  }

  lemma {:induction false} ToBlocksConcat(a: seq<Piece>, b: seq<Piece>, media: seq<Media>)
    ensures ToBlocks(a + b, media) == ToBlocks(a, media) + ToBlocks(b, media)
  {
    if a == [] {
      assert a + b == b;
    } else {
      assert (a + b)[1..] == a[1..] + b;
      ToBlocksConcat(a[1..], b, media);
    }
  }

  function Paragraphs(text: string): seq<Block> {
    if Trim(text) != "" then [Paragraph(Trim(text))] else []
  }

  lemma OneParagraph(text: string, media: seq<Media>)
    ensures ToBlocks(TextPiece(text), media) == Paragraphs(text)
  {
    hide Trim;
    if Trim(text) != "" {
      assert TextPiece(text)[1..] == [];
    }
  }

  lemma ToBlocksStep(text: string, url: string, rest: seq<Piece>, media: seq<Media>)
    ensures ToBlocks(TextPiece(text) + [Token(url)] + rest, media)
            == Paragraphs(text) + PieceBlocks(Token(url), media) + ToBlocks(rest, media)
  {
    hide PieceBlocks, TextPiece, Paragraphs;
    ToBlocksConcat(TextPiece(text) + [Token(url)], rest, media);
    ToBlocksConcat(TextPiece(text), [Token(url)], media);
    assert ToBlocks([Token(url)], media) == PieceBlocks(Token(url), media) + ToBlocks([], media);
    OneParagraph(text, media);
  }

  /** The blocks that the text gives from the cursor on. */
  function BlocksFrom(s: string, cursor: nat, media: seq<Media>): seq<Block>
    requires cursor <= |s|
  {
    ToBlocks(ParsePieces(s[cursor..]), media)
  }

  lemma BlocksFromStep(s: string, cursor: nat, media: seq<Media>)
    requires cursor <= |s|
    ensures FindToken(s, cursor).None? ==> BlocksFrom(s, cursor, media) == Paragraphs(s[cursor..])
    ensures FindToken(s, cursor).Some? ==>
              var i := FindToken(s, cursor).value;
              BlocksFrom(s, cursor, media)
              == Paragraphs(s[cursor..i]) + PieceBlocks(Token(UrlAt(s, i)), media)
                 + BlocksFrom(s, AfterToken(s, i), media)
  {
    hide FindToken, UrlAt, AfterToken, TokenAt, TextPiece, PieceBlocks, ToBlocks, ParsePieces, Paragraphs;
    if FindToken(s, cursor).Some? {
      var i := FindToken(s, cursor).value;
      ParseFrom(s, cursor, i);
      ToBlocksStep(s[cursor..i], UrlAt(s, i), ParsePieces(s[AfterToken(s, i)..]), media);
    } else {
      ParseEnd(s, cursor);
      OneParagraph(s[cursor..], media);
    }
  }

  lemma MoveBlocks(all: seq<Block>, done: seq<Block>, first: seq<Block>, second: seq<Block>,
                   rest: seq<Block>)
    requires all == done + (first + second + rest)
    ensures all == done + first + second + rest
  {
  }

  /** Walks the tokens of the text from left to right. */
  method BlocksInText(content: string, media: seq<Media>) returns (blocks: seq<Block>)
    ensures blocks == ToBlocks(ParsePieces(content), media)
  {
    blocks := [];
    var cursor := 0;
    var token := FindToken(content, 0);
    assert content[0..] == content;
    ghost var all := BlocksFrom(content, 0, media);
    assert ToBlocks(ParsePieces(content), media) == all;
    hide FindToken, UrlAt, AfterToken, TokenAt, Trim, FindMedia, BlocksFrom, ParsePieces, ToBlocks;
    while token.Some?
      invariant cursor <= |content| && token == FindToken(content, cursor)
      invariant all == blocks + BlocksFrom(content, cursor, media)
      decreases |content| - cursor
    {
      var i := token.value;
      ghost var before := blocks;
      ghost var paragraphs, images := Paragraphs(content[cursor..i]), PieceBlocks(Token(UrlAt(content, i)), media);
      var paragraph := Trim(content[cursor..i]);
      if paragraph != "" {
        blocks := blocks + [Paragraph(paragraph)];
      }
      assert blocks == before + paragraphs;
      var matched := FindMedia(media, UrlAt(content, i));
      if matched.Some? {
        blocks := blocks + [Image(matched.value.id)];
      }
      assert blocks == before + paragraphs + images;
      hide Paragraphs, PieceBlocks;
      BlocksFromStep(content, cursor, media);
      cursor := AfterToken(content, i);
      MoveBlocks(all, before, paragraphs, images, BlocksFrom(content, cursor, media));
      token := FindToken(content, cursor);
    }
    BlocksFromStep(content, cursor, media);
    var trailing := Trim(content[cursor..]);
    if trailing != "" {
      blocks := blocks + [Paragraph(trailing)];
    }
  }

  method MapLegacyReview(content: string, media: seq<Media>) returns (blocks: seq<Block>)
    ensures blocks == ParsedBlocks(content, media)
  {
    blocks := BlocksInText(content, media);
    ghost var inText := blocks;
    if !HasImage(blocks) && media != [] {
      for i := 0 to |media|
        invariant blocks == inText + Images(media)[..i]
      {
        blocks := blocks + [Image(media[i].id)];
      }
    }
  }
}
