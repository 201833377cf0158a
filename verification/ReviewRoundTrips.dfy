/** Reviews printed and parsed back: which blocks come back, and what a second round changes (legacyApiAdapter.ts,
    legacyMappers.ts). */
module ReviewRoundTrips {
  import opened Wrappers
  import opened ReviewText
  import opened ReviewParsing

  function PieceOf(b: Block, claims: Claims): seq<Piece> {
    match b
    case Paragraph(text) => if text != "" then [Text(text)] else []
    case Image(id) => if IsClaimed(id, claims) then [Token(claims[id])] else []
  }

  function PiecesOf(blocks: seq<Block>, claims: Claims): seq<Piece> {
    if blocks == [] then [] else PieceOf(blocks[0], claims) + PiecesOf(blocks[1..], claims)
  }

  /** What is shown of a block that was printed: nothing of an empty paragraph or an image that was not claimed, and the
      stored medium of the claimed url. */
  function ShownBlock(b: Block, claims: Claims, media: seq<Media>): seq<Block> {
    match b
    case Paragraph(text) => if text != "" then [b] else []
    case Image(id) =>
      if IsClaimed(id, claims) && FindMedia(media, claims[id]).Some? then [Image(FindMedia(media, claims[id]).value.id)]
      else []
  }

  function ShownBlocks(blocks: seq<Block>, claims: Claims, media: seq<Media>): seq<Block> {
    if blocks == [] then [] else ShownBlock(blocks[0], claims, media) + ShownBlocks(blocks[1..], claims, media)
  }

  /** Adjacent paragraph blocks become one, separated by an empty line. */
  function MergeBlocks(blocks: seq<Block>): (merged: seq<Block>)
    ensures blocks != [] ==> merged != [] && (blocks[0].Paragraph? <==> merged[0].Paragraph?)
  {
    if |blocks| < 2 then blocks
    else
      var rest := MergeBlocks(blocks[1..]);
      if blocks[0].Paragraph? && rest[0].Paragraph?
      then [Paragraph(blocks[0].text + SEPARATOR + rest[0].text)] + rest[1..]
      else [blocks[0]] + rest
  }

  /** Each paragraph trimmed, and the blank ones dropped. */
  function TidyBlocks(blocks: seq<Block>): seq<Block> {
    if blocks == [] then []
    else (if blocks[0].Paragraph? then Paragraphs(blocks[0].text) else [blocks[0]]) + TidyBlocks(blocks[1..])
  }

  /** The urls of the claimed images are such that a token can hold them. */
  ghost predicate PrintsUrls(blocks: seq<Block>, claims: Claims) {
    forall id :: Image(id) in blocks && IsClaimed(id, claims) ==> IsUrl(claims[id])
  }

  /** In no paragraph, once adjacent ones are merged, does a token form, also not with the image behind it. */
  ghost predicate NoTokenForms(blocks: seq<Block>, claims: Claims) {
    AreSafe(Merge(PiecesOf(blocks, claims)))
  }

  /** The media of all claimed images are among those stored. */
  ghost predicate AreListed(blocks: seq<Block>, claims: Claims, media: seq<Media>) {
    forall id :: Image(id) in blocks && IsClaimed(id, claims) ==> FindMedia(media, claims[id]).Some?
  }

  ghost predicate AreFound(pieces: seq<Piece>, media: seq<Media>) {
    forall i :: 0 <= i < |pieces| && pieces[i].Token? ==> FindMedia(media, pieces[i].url).Some?
  }

  function PieceTexts(pieces: seq<Piece>): seq<string> {
    if pieces == [] then [] else [PieceText(pieces[0])] + PieceTexts(pieces[1..])
  }

  lemma {:induction false} JoinIsTexts(pieces: seq<Piece>)
    ensures Join(pieces) == JoinTexts(PieceTexts(pieces)) && |PieceTexts(pieces)| == |pieces|
  {
    if pieces != [] {
      JoinIsTexts(pieces[1..]);
    }
  }

  lemma {:induction false} TextsArePieces(blocks: seq<Block>, claims: Claims)
    ensures NonEmpty(Texts(blocks, claims)) == PieceTexts(PiecesOf(blocks, claims))
  {
    var texts := Texts(blocks, claims);
    if blocks != [] {
      TextsArePieces(blocks[1..], claims);
      assert texts[1..] == Texts(blocks[1..], claims);
      var first := PieceOf(blocks[0], claims);
      assert texts[0] == BlockText(blocks[0], claims);
      var rest := PiecesOf(blocks[1..], claims);
      if texts[0] == "" {
        assert PiecesOf(blocks, claims) == rest;
      } else {
        assert PieceText(first[0]) == texts[0];
        assert PiecesOf(blocks, claims) == [first[0]] + rest;
        assert ([first[0]] + rest)[1..] == rest;
      }
    }
  }

  lemma ContentIsJoined(blocks: seq<Block>, claims: Claims)
    ensures ReviewContent(blocks, claims) == Trim(Join(PiecesOf(blocks, claims)))
  {
    assert ReviewContent(blocks, claims) == Trim(JoinTexts(NonEmpty(Texts(blocks, claims))));
    TextsArePieces(blocks, claims);
    JoinIsTexts(PiecesOf(blocks, claims));
  }

  lemma {:induction false} PiecesShow(blocks: seq<Block>, claims: Claims, media: seq<Media>)
    requires PrintsUrls(blocks, claims) && AreListed(blocks, claims, media)
    ensures HoldUrls(PiecesOf(blocks, claims)) && AreFound(PiecesOf(blocks, claims), media)
    ensures ToBlocks(PiecesOf(blocks, claims), media) == ShownBlocks(blocks, claims, media)
  {
    if blocks != [] {
      var b, rest := blocks[0], blocks[1..];
      assert forall c :: c in rest ==> c in blocks;
      assert b in blocks;
      hide IsUrl, FindMedia;
      PiecesShow(rest, claims, media);
      ToBlocksConcat(PieceOf(b, claims), PiecesOf(rest, claims), media);
      OnePiece(b, claims, media);
    }
  }

  lemma OnePiece(b: Block, claims: Claims, media: seq<Media>)
    requires b.Image? && IsClaimed(b.mediaId, claims) ==>
               IsUrl(claims[b.mediaId]) && FindMedia(media, claims[b.mediaId]).Some?
    ensures HoldUrls(PieceOf(b, claims)) && AreFound(PieceOf(b, claims), media)
    ensures ToBlocks(PieceOf(b, claims), media) == ShownBlock(b, claims, media)
  {
    hide IsUrl, FindMedia;
    var pieces := PieceOf(b, claims);
    assert pieces != [] ==> pieces[1..] == [];
  }

  lemma {:induction false} FoundPieces(pieces: seq<Piece>, media: seq<Media>)
    requires AreFound(pieces, media)
    ensures |ToBlocks(pieces, media)| == |pieces|
    ensures forall i :: 0 <= i < |pieces| ==> PieceBlocks(pieces[i], media) == [ToBlocks(pieces, media)[i]]
  {
    if pieces != [] {
      FoundPieces(pieces[1..], media);
    }
  }

  lemma BlocksOfFirst(p: Piece, rest: seq<Piece>, media: seq<Media>)
    ensures ToBlocks([p] + rest, media) == PieceBlocks(p, media) + ToBlocks(rest, media)
  {
    hide PieceBlocks;
    assert ([p] + rest)[1..] == rest;
  }

  lemma MergeFirstBlock(b: Block, rest: seq<Block>)
    requires rest != []
    ensures var merged := MergeBlocks(rest);
            MergeBlocks([b] + rest)
            == if b.Paragraph? && merged[0].Paragraph?
               then [Paragraph(b.text + SEPARATOR + merged[0].text)] + merged[1..]
               else [b] + merged
  {
    assert ([b] + rest)[1..] == rest;
  }

  lemma MergeFirstPiece(p: Piece, rest: seq<Piece>)
    requires rest != []
    ensures var merged := Merge(rest);
            Merge([p] + rest)
            == if p.Text? && merged[0].Text? then [Text(p.text + SEPARATOR + merged[0].text)] + merged[1..]
               else [p] + merged
  {
    assert ([p] + rest)[1..] == rest;
  }

  lemma {:induction false} MergedBlocks(pieces: seq<Piece>, media: seq<Media>)
    requires AreFound(pieces, media)
    ensures ToBlocks(Merge(pieces), media) == MergeBlocks(ToBlocks(pieces, media)) && AreFound(Merge(pieces), media)
  {
    FoundPieces(pieces, media);
    if |pieces| >= 2 {
      var p, rest := pieces[0], pieces[1..];
      assert pieces == [p] + rest;
      FoundPieces(rest, media);
      MergedBlocks(rest, media);
      var merged := Merge(rest);
      assert PieceBlocks(p, media) == [ToBlocks(pieces, media)[0]];
      hide Merge, MergeBlocks, FindMedia, ToBlocks;
      BlocksOfFirst(p, rest, media);
      MergeFirstPiece(p, rest);
      MergeFirstBlock(ToBlocks(pieces, media)[0], ToBlocks(rest, media));
      FoundFirst(merged, media);
      if p.Text? && merged[0].Text? {
        BlocksOfFirst(Text(p.text + SEPARATOR + merged[0].text), merged[1..], media);
      } else {
        BlocksOfFirst(p, merged, media);
      }
    }
  }

  lemma FoundFirst(pieces: seq<Piece>, media: seq<Media>)
    requires AreFound(pieces, media) && pieces != []
    ensures var blocks := ToBlocks(pieces, media);
      && |blocks| == |pieces| && PieceBlocks(pieces[0], media) == [blocks[0]]
      && blocks[1..] == ToBlocks(pieces[1..], media)
  {
    FoundPieces(pieces, media);
    hide FindMedia, PieceBlocks;
  }

  lemma {:induction false} TidyShows(pieces: seq<Piece>, media: seq<Media>)
    requires AreFound(pieces, media)
    ensures ToBlocks(Tidy(pieces), media) == TidyBlocks(ToBlocks(pieces, media)) && AreFound(Tidy(pieces), media)
  {
    if pieces != [] {
      FoundPieces(pieces, media);
      var blocks := ToBlocks(pieces, media);
      assert blocks[1..] == ToBlocks(pieces[1..], media);
      assert PieceBlocks(pieces[0], media) == [blocks[0]];
      hide FindMedia;
      TidyShows(pieces[1..], media);
      ToBlocksConcat(TidyPiece(pieces[0]), Tidy(pieces[1..]), media);
      TidyPieceShows(pieces[0], media);
    }
  }

  lemma TidyPieceShows(p: Piece, media: seq<Media>)
    ensures ToBlocks(TidyPiece(p), media) == if p.Text? then Paragraphs(p.text) else PieceBlocks(p, media)
  {
    if p.Text? {
      OneParagraph(p.text, media);
    } else {
      assert [p][1..] == [];
    }
  }

  // ---------- How much text is shown ----------

  function ShownText(blocks: seq<Block>): nat {
    if blocks == [] then 0 else (if blocks[0].Paragraph? then |blocks[0].text| else 0) + ShownText(blocks[1..])
  }

  lemma {:induction false} ShownTextConcat(a: seq<Block>, b: seq<Block>)
    ensures ShownText(a + b) == ShownText(a) + ShownText(b)
  {
    if a == [] {
      assert a + b == b;
    } else {
      assert (a + b)[1..] == a[1..] + b;
      ShownTextConcat(a[1..], b);
    }
  }

  lemma {:induction false} ImagesShowNoText(blocks: seq<Block>)
    requires forall i :: 0 <= i < |blocks| ==> blocks[i].Image?
    ensures ShownText(blocks) == 0
  {
    if blocks != [] {
      ImagesShowNoText(blocks[1..]);
    }
  }

  lemma {:induction false} BlocksShowText(pieces: seq<Piece>, media: seq<Media>)
    ensures ShownText(ToBlocks(pieces, media)) == TextLength(pieces)
  {
    if pieces != [] {
      BlocksShowText(pieces[1..], media);
      ShownTextConcat(PieceBlocks(pieces[0], media), ToBlocks(pieces[1..], media));
      hide FindMedia;
      var blocks := PieceBlocks(pieces[0], media);
      assert blocks != [] ==> blocks[1..] == [];
    }
  }

  lemma ParsedShowsText(content: string, media: seq<Media>)
    ensures ShownText(ParsedBlocks(content, media)) == TextLength(ParsePieces(content))
  {
    var blocks := ToBlocks(ParsePieces(content), media);
    ParsedIs(content, media);
    WithImagesShowsText(blocks, media);
    BlocksShowText(ParsePieces(content), media);
    hide *;
  }

  lemma WithImagesShowsText(blocks: seq<Block>, media: seq<Media>)
    ensures ShownText(WithImages(blocks, media)) == ShownText(blocks)
  {
    ShownTextConcat(blocks, Images(media));
    ImagesShowNoText(Images(media));
  }

  /** Parsing a printed review gives its blocks back, exactly if no token forms in a paragraph: empty paragraphs
      dropped, adjacent paragraphs merged, the merged ones trimmed, and images standing for the stored media of their
      urls. */
  lemma ReviewRoundTripExactly(blocks: seq<Block>, claims: Claims, media: seq<Media>)
    requires PrintsUrls(blocks, claims) && AreListed(blocks, claims, media)
    ensures ParsedBlocks(ReviewContent(blocks, claims), media)
            == WithImages(TidyBlocks(MergeBlocks(ShownBlocks(blocks, claims, media))), media)
            <==> NoTokenForms(blocks, claims)
  {
    var pieces, content := PiecesOf(blocks, claims), ReviewContent(blocks, claims);
    var merged := Merge(pieces);
    PiecesShow(blocks, claims, media);
    hide AreFound, HoldUrls, WithImages, ToBlocks, ParsePieces, Merge, Tidy, TidyBlocks, MergeBlocks, AreSafe, Trim;
    hide ReviewContent, PiecesOf, ShownBlocks, ParsedBlocks, TextLength, ShownText, Join, AreListed, PrintsUrls;
    ContentIsJoined(blocks, claims);
    ParsePrintedExactly(pieces);
    MergedBlocks(pieces, media);
    TidyShows(merged, media);
    ParsedIs(content, media);
    ParsedShowsText(content, media);
    BlocksShowText(Tidy(merged), media);
    WithImagesShowsText(ToBlocks(Tidy(merged), media), media);
  }

  lemma ParsedIs(content: string, media: seq<Media>)
    ensures ParsedBlocks(content, media) == WithImages(ToBlocks(ParsePieces(content), media), media)
  {
    hide WithImages, ToBlocks, ParsePieces;
  }

  /** If the stored media are at least those that were sent, every claimed image is listed. */
  lemma SentIsListed(blocks: seq<Block>, coverMediaId: string, claims: Claims, media: seq<Media>)
    requires forall url :: url in Urls(SentIds(blocks, coverMediaId), claims) ==> exists m :: m in media && m.url == url
    ensures AreListed(blocks, claims, media)
  {
    SentMediaExactly(blocks, coverMediaId, claims);
    forall id | Image(id) in blocks && IsClaimed(id, claims)
      ensures FindMedia(media, claims[id]).Some?
    {
      assert IsSent(id, blocks, coverMediaId, claims);
      assert claims[id] in Urls(SentIds(blocks, coverMediaId), claims);
    }
  }

  // ---------- Printing what was parsed ----------

  /** The claims after the media of a review were cached. */
  function CacheMedia(claims: Claims, media: seq<Media>): Claims
    decreases |media|
  {
    if media == [] then claims
    else
      var m := media[0];
      CacheMedia(if m.id != "" && m.url != "" then claims[m.id := m.url] else claims, media[1..])
  }

  /** Stored media have ids of their own, and urls that a token can hold. */
  ghost predicate AreStored(media: seq<Media>) {
    && (forall i :: 0 <= i < |media| ==> media[i].id != "" && media[i].url != "" && ']' !in media[i].url)
    && (forall i, j :: 0 <= i < j < |media| ==> media[i].id != media[j].id)
  }

  lemma {:induction false} CachedElsewhere(claims: Claims, media: seq<Media>, id: string)
    requires forall i :: 0 <= i < |media| ==> media[i].id != id
    ensures (id in CacheMedia(claims, media) <==> id in claims)
    ensures id in claims ==> CacheMedia(claims, media)[id] == claims[id]
    decreases |media|
  {
    if media != [] {
      var m := media[0];
      CachedElsewhere(if m.id != "" && m.url != "" then claims[m.id := m.url] else claims, media[1..], id);
    }
  }

  lemma {:induction false} CachedMedia(claims: Claims, media: seq<Media>, k: nat)
    requires AreStored(media) && k < |media|
    ensures IsClaimed(media[k].id, CacheMedia(claims, media))
    ensures CacheMedia(claims, media)[media[k].id] == media[k].url
    decreases |media|
  {
    var after := claims[media[0].id := media[0].url];
    if k == 0 {
      CachedElsewhere(after, media[1..], media[0].id);
    } else {
      CachedMedia(after, media[1..], k - 1);
    }
  }

  /** No paragraph is empty. */
  predicate NoneEmpty(pieces: seq<Piece>) {
    forall i :: 0 <= i < |pieces| && pieces[i].Text? ==> pieces[i].text != ""
  }

  predicate AreTrimmed(pieces: seq<Piece>) {
    forall i :: 0 <= i < |pieces| && pieces[i].Text? ==> IsTrimmed(pieces[i].text)
  }

  /** Found pieces are what their own blocks print. */
  lemma {:induction false} PiecesOfBlocks(pieces: seq<Piece>, claims: Claims, media: seq<Media>)
    requires NoneEmpty(pieces) && AreFound(pieces, media) && AreStored(media)
    ensures PiecesOf(ToBlocks(pieces, media), CacheMedia(claims, media)) == pieces
  {
    var claims' := CacheMedia(claims, media);
    if pieces != [] {
      PiecesOfBlocks(pieces[1..], claims, media);
      FoundPieces(pieces, media);
      var blocks := ToBlocks(pieces, media);
      assert blocks[1..] == ToBlocks(pieces[1..], media);
      assert PieceOf(blocks[0], claims') == [pieces[0]] by {
        assert PieceBlocks(pieces[0], media) == [blocks[0]];
        if pieces[0].Token? {
          var m := FindMedia(media, pieces[0].url).value;
          var k: nat :| k < |media| && media[k] == m;
          CachedMedia(claims, media, k);
        }
      }
    }
  }

  function Tokens(media: seq<Media>): (pieces: seq<Piece>)
    ensures |pieces| == |media| && forall i :: 0 <= i < |media| ==> pieces[i] == Token(media[i].url)
  {
    seq(|media|, i requires 0 <= i < |media| => Token(media[i].url))
  }

  lemma {:induction false} PiecesOfConcat(a: seq<Block>, b: seq<Block>, claims: Claims)
    ensures PiecesOf(a + b, claims) == PiecesOf(a, claims) + PiecesOf(b, claims)
  {
    if a == [] {
      assert a + b == b;
    } else {
      assert (a + b)[1..] == a[1..] + b;
      PiecesOfConcat(a[1..], b, claims);
    }
  }

  lemma {:induction false} PiecesOfImages(media: seq<Media>, n: nat, claims: Claims)
    requires n <= |media|
    requires forall k :: 0 <= k < |media| ==> IsClaimed(media[k].id, claims) && claims[media[k].id] == media[k].url
    ensures PiecesOf(Images(media)[n..], claims) == Tokens(media)[n..]
    decreases |media| - n
  {
    if n < |media| {
      PiecesOfImages(media, n + 1, claims);
      assert Images(media)[n..][1..] == Images(media)[n + 1..];
      assert PieceOf(Images(media)[n..][0], claims) == [Token(media[n].url)];
    }
  }

  predicate HasToken(pieces: seq<Piece>) {
    exists i :: 0 <= i < |pieces| && pieces[i].Token?
  }

  lemma HasTokenFirst(pieces: seq<Piece>)
    requires pieces != []
    ensures HasToken(pieces) <==> pieces[0].Token? || HasToken(pieces[1..])
  {
    if HasToken(pieces[1..]) {
      var i :| 0 <= i < |pieces[1..]| && pieces[1..][i].Token?;
      assert pieces[i + 1].Token?;
    }
    if HasToken(pieces) && !pieces[0].Token? {
      var i :| 0 <= i < |pieces| && pieces[i].Token?;
      assert pieces[1..][i - 1].Token?;
    }
  }

  lemma {:induction false} MergeKeepsTokens(pieces: seq<Piece>)
    ensures HasToken(Merge(pieces)) <==> HasToken(pieces)
  {
    if |pieces| >= 2 {
      var rest, merged := Merge(pieces[1..]), Merge(pieces);
      MergeKeepsTokens(pieces[1..]);
      HasTokenFirst(pieces);
      HasTokenFirst(rest);
      HasTokenFirst(merged);
      assert merged[1..] == if pieces[0].Text? && rest[0].Text? then rest[1..] else rest;
    }
  }

  lemma ImagesAreTokens(pieces: seq<Piece>, media: seq<Media>)
    requires AreFound(pieces, media)
    ensures HasImage(ToBlocks(pieces, media)) <==> HasToken(pieces)
  {
    FoundPieces(pieces, media);
    var blocks := ToBlocks(pieces, media);
    assert forall i :: 0 <= i < |pieces| ==> (blocks[i].Image? <==> pieces[i].Token?) by {
      forall i | 0 <= i < |pieces|
        ensures blocks[i].Image? <==> pieces[i].Token?
      {
        assert PieceBlocks(pieces[i], media) == [blocks[i]];
      }
    }
  }

  // ---------- The tidy pieces ----------

  lemma SafeTrimmed(s: string, followed: bool)
    ensures IsSafe(Trim(s), followed) <==> IsSafe(s, followed)
    ensures Trim(s) == "" || IsTrimmed(Trim(s))
    ensures |Trim(s)| <= |s| && (|Trim(s)| == |s| ==> Trim(s) == s)
  {
    var l, r := TrimLeaves(s);
    SafeBlankEnds(l, Trim(s), r, followed);
    hide IsSafe, Trim, IsBlank, IsTrimmed;
    if |Trim(s)| == |s| {
      assert l == "" && r == "";
      assert "" + Trim(s) + "" == Trim(s);
    }
  }

  lemma TrimTrimmed(s: string)
    requires IsTrimmed(s)
    ensures Trim(s) == s
  {
    TrimBlankEnds("", s, "");
    assert "" + s + "" == s;
  }

  lemma PutInFront(p: Piece, rest: seq<Piece>)
    requires IsMerged(rest) && HoldUrls(rest) && AreTrimmed(rest)
    requires if p.Text? then IsTrimmed(p.text) && (rest == [] || rest[0].Token?) else IsUrl(p.url)
    ensures IsMerged([p] + rest) && HoldUrls([p] + rest) && AreTrimmed([p] + rest)
    ensures HasToken([p] + rest) <==> p.Token? || HasToken(rest)
    ensures AreSafe(rest) && (p.Text? ==> IsSafe(p.text, rest != [])) ==> AreSafe([p] + rest)
  {
    hide IsUrl, IsTrimmed, IsSafe;
    var all := [p] + rest;
    assert all[1..] == rest;
    HasTokenFirst(all);
    SafeFirst(all);
  }

  lemma {:induction false} TidyFacts(pieces: seq<Piece>)
    requires IsMerged(pieces) && HoldUrls(pieces)
    ensures IsMerged(Tidy(pieces)) && HoldUrls(Tidy(pieces)) && AreTrimmed(Tidy(pieces))
    ensures HasToken(Tidy(pieces)) <==> HasToken(pieces)
    ensures AreSafe(pieces) ==> AreSafe(Tidy(pieces))
    ensures pieces != [] && pieces[0].Token? ==> Tidy(pieces) != [] && Tidy(pieces)[0] == pieces[0]
    ensures pieces == [] ==> Tidy(pieces) == []
  {
    if pieces != [] {
      RestIsMerged(pieces);
      TidyFacts(pieces[1..]);
      HasTokenFirst(pieces);
      SafeFirst(pieces);
      hide IsMerged, HoldUrls, AreTrimmed, HasToken, AreSafe, IsSafe;
      if pieces[0].Text? {
        SafeTrimmed(pieces[0].text, |pieces| > 1);
        assert |pieces| > 1 ==> pieces[1..][0] == pieces[1];
        if Trim(pieces[0].text) != "" {
          PutInFront(Text(Trim(pieces[0].text)), Tidy(pieces[1..]));
        } else {
          assert Tidy(pieces) == Tidy(pieces[1..]);
        }
      } else {
        PutInFront(pieces[0], Tidy(pieces[1..]));
      }
    }
  }

  lemma {:induction false} TidyStays(pieces: seq<Piece>)
    requires AreTrimmed(pieces)
    ensures Tidy(pieces) == pieces
  {
    if pieces != [] {
      TidyStays(pieces[1..]);
      if pieces[0].Text? {
        TrimTrimmed(pieces[0].text);
      }
    }
  }

  lemma {:induction false} TrimmedIfTidyStays(pieces: seq<Piece>)
    requires Tidy(pieces) == pieces
    ensures AreTrimmed(pieces)
  {
    if pieces != [] {
      var rest := pieces[1..];
      TidyNoLonger(rest);
      assert |TidyPiece(pieces[0])| == 1 && TidyPiece(pieces[0])[0] == pieces[0];
      assert Tidy(rest) == rest;
      TrimmedIfTidyStays(rest);
      if pieces[0].Text? {
        SafeTrimmed(pieces[0].text, false);
      }
    }
  }

  lemma {:induction false} TidyNoLonger(pieces: seq<Piece>)
    ensures |Tidy(pieces)| <= |pieces|
  {
    if pieces != [] {
      TidyNoLonger(pieces[1..]);
    }
  }

  // ---------- The ends of the text ----------

  function TrimFront(pieces: seq<Piece>): seq<Piece> {
    if pieces == [] || pieces[0].Token? then pieces
    else (if TrimStart(pieces[0].text) != "" then [Text(TrimStart(pieces[0].text))] else []) + pieces[1..]
  }

  function TrimBack(pieces: seq<Piece>): seq<Piece> {
    if pieces == [] || pieces[|pieces| - 1].Token? then pieces
    else
      var n := |pieces| - 1;
      pieces[..n] + (if TrimEnd(pieces[n].text) != "" then [Text(TrimEnd(pieces[n].text))] else [])
  }

  /** The pieces of the trimmed text. */
  function TrimEnds(pieces: seq<Piece>): seq<Piece> {
    TrimBack(TrimFront(pieces))
  }

  lemma JoinMany(pieces: seq<Piece>)
    requires |pieces| > 1
    ensures Join(pieces) == PieceText(pieces[0]) + SEPARATOR + Join(pieces[1..])
  {
    hide PieceText;
  }

  lemma {:induction false} JoinAppend(init: seq<Piece>, last: Piece)
    requires init != []
    ensures Join(init + [last]) == Join(init) + SEPARATOR + PieceText(last)
  {
    hide Join, PieceText;
    if |init| == 1 {
      JoinTwo(init[0], last);
      assert init == [init[0]] && init + [last] == [init[0], last];
    } else {
      var rest := init[1..];
      JoinAppend(rest, last);
      JoinMany(init);
      AppendedRest(init, last);
      JoinMany(init + [last]);
      hide *;
      Regroup(PieceText(init[0]), SEPARATOR, Join(rest), PieceText(last));
    }
  }

  lemma AppendedRest<T>(init: seq<T>, last: T)
    requires init != []
    ensures (init + [last])[1..] == init[1..] + [last] && (init + [last])[0] == init[0]
  {
  }

  lemma JoinTwo(p: Piece, q: Piece)
    ensures Join([p, q]) == Join([p]) + SEPARATOR + PieceText(q)
  {
    JoinMany([p, q]);
    JoinOne(p);
    JoinOne(q);
    assert [p, q][1..] == [q];
    hide Join, PieceText;
  }

  lemma JoinOne(p: Piece)
    ensures Join([p]) == PieceText(p)
  {
    hide PieceText;
  }

  lemma Regroup<T>(a: seq<T>, b: seq<T>, c: seq<T>, d: seq<T>)
    ensures a + b + (c + b + d) == (a + b + c) + b + d
  {
  }

  lemma TokenIsNoSpace(url: string)
    ensures var s := PieceText(Token(url)); !IsSpace(s[0]) && !IsSpace(s[|s| - 1])
  {
  }

  lemma FrontIsTrimmed(pieces: seq<Piece>)
    requires IsMerged(pieces)
    ensures TrimStart(Join(pieces)) == Join(TrimFront(pieces))
  {
    if pieces != [] {
      JoinHead(pieces);
      if pieces[0].Token? {
        TokenIsNoSpace(pieces[0].url);
        TrimStartBlank("", Join(pieces));
        assert "" + Join(pieces) == Join(pieces);
      } else {
        TextFrontIsTrimmed(pieces);
      }
    }
  }

  lemma TextFrontIsTrimmed(pieces: seq<Piece>)
    requires IsMerged(pieces) && pieces != [] && pieces[0].Text?
    ensures TrimStart(Join(pieces)) == Join(TrimFront(pieces))
  {
    var text, rest := pieces[0].text, pieces[1..];
    var core := TrimStart(text);
    var lead := TrimStartLeaves(text);
    assert [] + rest == rest;
    if core != "" {
      assert pieces[0] == Text(lead + core);
      assert TrimFront(pieces) == [Text(core)] + rest;
      hide Join, IsBlank, TrimFront, TrimStart, IsMerged;
      FrontOfText(lead, core, pieces);
    } else if rest == [] {
      JoinHead(pieces);
      TrimStartBlank(lead, "");
    } else {
      assert !(pieces[0].Text? && pieces[0 + 1].Text?);
      assert lead == text;
      hide Join, IsBlank, TrimStart;
      BlankFront(lead, pieces);
    }
  }

  lemma FrontOfText(lead: string, core: string, pieces: seq<Piece>)
    requires IsBlank(lead) && core != "" && !IsSpace(core[0]) && pieces != [] && pieces[0] == Text(lead + core)
    ensures TrimStart(Join(pieces)) == Join([Text(core)] + pieces[1..])
  {
    var front := [Text(core)] + pieces[1..];
    JoinHead(pieces);
    JoinHead(front);
    assert front[1..] == pieces[1..];
    hide Join, IsSpace;
    Associative(lead, core, JoinTail(pieces));
    TrimStartBlank(lead, core + JoinTail(pieces));
  }

  lemma BlankFront(lead: string, pieces: seq<Piece>)
    requires IsBlank(lead) && |pieces| > 1 && pieces[0] == Text(lead) && pieces[1].Token?
    ensures TrimStart(Join(pieces)) == Join(pieces[1..])
  {
    var rest := pieces[1..];
    JoinMany(pieces);
    JoinHead(rest);
    TokenIsNoSpace(rest[0].url);
    TrimStartBlank(lead + SEPARATOR, Join(rest));
  }

  lemma NotAdjacent(pieces: seq<Piece>, i: nat)
    requires IsMerged(pieces) && i + 1 < |pieces|
    ensures !(pieces[i].Text? && pieces[i + 1].Text?)
  {
  }

  lemma BackIsTrimmed(pieces: seq<Piece>)
    requires IsMerged(pieces)
    ensures TrimEnd(Join(pieces)) == Join(TrimBack(pieces))
  {
    if pieces != [] {
      var n := |pieces| - 1;
      if pieces[n].Token? {
        TokenAtEnd(pieces);
        TrimEndBlank(Join(pieces), "");
        assert Join(pieces) + "" == Join(pieces);
      } else {
        if n > 0 {
          NotAdjacent(pieces, n - 1);
        }
        assert pieces == pieces[..n] + [Text(pieces[n].text)];
        hide Join, TrimEnd, IsMerged;
        TextBackIsTrimmed(pieces[..n], pieces[n].text);
      }
    }
  }

  lemma TextBackIsTrimmed(init: seq<Piece>, text: string)
    requires init == [] || init[|init| - 1].Token?
    ensures var back := if TrimEnd(text) != "" then [Text(TrimEnd(text))] else [];
            TrimEnd(Join(init + [Text(text)])) == Join(init + back)
  {
    var core := TrimEnd(text);
    var tail := TrimEndLeaves(text);
    if core != "" {
      hide Join, IsBlank, TrimEnd;
      BackOfText(init, core, tail);
    } else {
      assert tail == text && init + [] == init;
      hide Join, IsBlank, TrimEnd;
      BlankBack(init, tail);
    }
  }

  lemma JoinBack(init: seq<Piece>, text: string)
    ensures Join(init + [Text(text)]) == (if init == [] then "" else Join(init) + SEPARATOR) + text
  {
    if init == [] {
      assert init + [Text(text)] == [Text(text)];
      JoinOne(Text(text));
    } else {
      JoinAppend(init, Text(text));
    }
  }

  lemma BackOfText(init: seq<Piece>, core: string, tail: string)
    requires IsBlank(tail) && core != "" && !IsSpace(core[|core| - 1])
    ensures TrimEnd(Join(init + [Text(core + tail)])) == Join(init + [Text(core)])
  {
    var before := if init == [] then "" else Join(init) + SEPARATOR;
    JoinBack(init, core);
    JoinBack(init, core + tail);
    hide Join, IsSpace;
    Associative(before, core, tail);
    TrimEndBlank(before + core, tail);
  }

  lemma BlankBack(init: seq<Piece>, tail: string)
    requires IsBlank(tail) && (init == [] || init[|init| - 1].Token?)
    ensures TrimEnd(Join(init + [Text(tail)])) == Join(init)
  {
    JoinBack(init, tail);
    if init == [] {
      TrimEndBlank("", tail);
    } else {
      TokenAtEnd(init);
      hide Join, IsBlank, TrimEnd, IsSpace;
      BlankBackText(Join(init), tail, Join(init + [Text(tail)]));
    }
  }

  lemma TokenAtEnd(pieces: seq<Piece>)
    requires pieces != [] && pieces[|pieces| - 1].Token?
    ensures Join(pieces) != "" && !IsSpace(Join(pieces)[|Join(pieces)| - 1])
  {
    var init, last := pieces[..|pieces| - 1], pieces[|pieces| - 1];
    assert pieces == init + [last];
    TokenIsNoSpace(last.url);
    if init == [] {
      assert pieces == [last];
      JoinOne(last);
    } else {
      JoinAppend(init, last);
      hide Join, PieceText, IsSpace;
    }
  }

  lemma BlankBackText(init: string, tail: string, s: string)
    requires IsBlank(tail) && s == init + SEPARATOR + tail && init != "" && !IsSpace(init[|init| - 1])
    ensures TrimEnd(s) == init
  {
    Associative(init, SEPARATOR, tail);
    TrimEndBlank(init, SEPARATOR + tail);
  }

  lemma FrontIsMerged(pieces: seq<Piece>)
    requires IsMerged(pieces)
    ensures IsMerged(TrimFront(pieces))
  {
    var front := TrimFront(pieces);
    forall i | 0 <= i < |front| - 1
      ensures !(front[i].Text? && front[i + 1].Text?)
    {
      var k := i + |pieces| - |front|;
      assert front[i].Text? <==> pieces[k].Text?;
      assert !(pieces[k].Text? && pieces[k + 1].Text?);
    }
  }

  /** Trimming the text trims its pieces at the ends. */
  lemma EndsAreTrimmed(pieces: seq<Piece>)
    requires IsMerged(pieces)
    ensures Trim(Join(pieces)) == Join(TrimEnds(pieces))
  {
    FrontIsTrimmed(pieces);
    FrontIsMerged(pieces);
    BackIsTrimmed(TrimFront(pieces));
  }

  // ---------- Trimmed at the ends, or everywhere ----------

  /** The length of the joined pieces, counting a separator behind each. */
  function JoinSize(pieces: seq<Piece>): nat {
    if pieces == [] then 0 else |PieceText(pieces[0])| + |SEPARATOR| + JoinSize(pieces[1..])
  }

  lemma {:induction false} JoinedSize(pieces: seq<Piece>)
    requires pieces != []
    ensures |Join(pieces)| + |SEPARATOR| == JoinSize(pieces)
  {
    hide PieceText;
    if |pieces| > 1 {
      JoinedSize(pieces[1..]);
    }
  }

  lemma {:induction false} JoinSizeConcat(a: seq<Piece>, b: seq<Piece>)
    ensures JoinSize(a + b) == JoinSize(a) + JoinSize(b)
  {
    if a == [] {
      assert a + b == b;
    } else {
      assert (a + b)[1..] == a[1..] + b;
      hide PieceText;
      JoinSizeConcat(a[1..], b);
    }
  }

  lemma TidyPieceSize(p: Piece)
    ensures JoinSize(TidyPiece(p)) <= JoinSize([p])
    ensures JoinSize(TidyPiece(p)) == JoinSize([p]) ==> TidyPiece(p) == [p]
  {
    if p.Text? {
      SafeTrimmed(p.text, false);
      hide Trim;
      assert [p][1..] == [];
      assert TextPiece(p.text) != [] ==> TextPiece(p.text)[1..] == [];
    }
  }

  lemma {:induction false} TidySize(pieces: seq<Piece>)
    ensures JoinSize(Tidy(pieces)) <= JoinSize(pieces)
    ensures JoinSize(Tidy(pieces)) == JoinSize(pieces) ==> Tidy(pieces) == pieces
  {
    if pieces != [] {
      var first, rest := [pieces[0]], pieces[1..];
      TidySize(rest);
      assert pieces == first + rest;
      hide JoinSize, TidyPiece;
      JoinSizeConcat(first, rest);
      JoinSizeConcat(TidyPiece(pieces[0]), Tidy(rest));
      TidyPieceSize(pieces[0]);
    }
  }

  /** Pieces are joined as their tidy ones exactly if they are trimmed. */
  lemma TidyJoinsExactly(pieces: seq<Piece>)
    requires NoneEmpty(pieces)
    ensures Join(Tidy(pieces)) == Join(pieces) <==> AreTrimmed(pieces)
  {
    if AreTrimmed(pieces) {
      TidyStays(pieces);
    } else {
      hide PieceText;
      if Tidy(pieces) == pieces {
        TrimmedIfTidyStays(pieces);
      }
      TidySize(pieces);
      JoinedSize(pieces);
      SizeOfSome(pieces);
      if Tidy(pieces) != [] {
        JoinedSize(Tidy(pieces));
      }
    }
  }

  lemma SizeOfSome(pieces: seq<Piece>)
    requires NoneEmpty(pieces) && pieces != []
    ensures JoinSize(pieces) > |SEPARATOR|
  {
    assert |PieceText(pieces[0])| > 0;
  }

  lemma {:induction false} TidyConcat(a: seq<Piece>, b: seq<Piece>)
    ensures Tidy(a + b) == Tidy(a) + Tidy(b)
  {
    if a == [] {
      assert a + b == b;
    } else {
      assert (a + b)[1..] == a[1..] + b;
      hide TidyPiece;
      TidyConcat(a[1..], b);
    }
  }

  lemma TidyOne(p: Piece)
    ensures Tidy([p]) == TidyPiece(p)
  {
    assert [p][1..] == [];
  }

  lemma TrimmedStart(s: string)
    ensures Trim(TrimStart(s)) == Trim(s)
  {
    var l := TrimStartLeaves(s);
    assert l + TrimStart(s) + "" == s;
    hide TrimStart, Trim;
    TrimIgnoresBlank(l, TrimStart(s), "");
  }

  lemma TrimmedEnd(s: string)
    ensures Trim(TrimEnd(s)) == Trim(s)
  {
    var r := TrimEndLeaves(s);
    assert "" + TrimEnd(s) + r == s;
    hide TrimEnd, Trim;
    TrimIgnoresBlank("", TrimEnd(s), r);
  }

  lemma NothingToTrim()
    ensures Trim("") == ""
  {
  }

  lemma FrontIsTidied(pieces: seq<Piece>)
    ensures Tidy(TrimFront(pieces)) == Tidy(pieces)
  {
    if pieces != [] && pieces[0].Text? {
      var text := pieces[0].text;
      TrimmedStart(text);
      NothingToTrim();
      hide Trim;
      var front := if TrimStart(text) != "" then [Text(TrimStart(text))] else [];
      assert TrimFront(pieces) == front + pieces[1..];
      TidyConcat(front, pieces[1..]);
      TidyOne(Text(TrimStart(text)));
    }
  }

  lemma BackIsTidied(pieces: seq<Piece>)
    ensures Tidy(TrimBack(pieces)) == Tidy(pieces)
  {
    var n := |pieces| - 1;
    if pieces != [] && pieces[n].Text? {
      var text, init := pieces[n].text, pieces[..n];
      TrimmedEnd(text);
      NothingToTrim();
      hide Trim;
      var back := if TrimEnd(text) != "" then [Text(TrimEnd(text))] else [];
      assert TrimBack(pieces) == init + back && pieces == init + [pieces[n]];
      TidyConcat(init, back);
      TidyConcat(init, [pieces[n]]);
      TidyOne(Text(TrimEnd(text)));
      TidyOne(pieces[n]);
    }
  }

  lemma EndsAreTidied(pieces: seq<Piece>)
    ensures Tidy(TrimEnds(pieces)) == Tidy(pieces)
  {
    FrontIsTidied(pieces);
    BackIsTidied(TrimFront(pieces));
  }

  lemma EndsNotEmpty(pieces: seq<Piece>)
    requires NoneEmpty(pieces)
    ensures NoneEmpty(TrimEnds(pieces))
  {
    hide TrimStart, TrimEnd;
    assert NoneEmpty(TrimFront(pieces));
  }

  lemma {:induction false} MergedNotEmpty(pieces: seq<Piece>)
    requires NoneEmpty(pieces)
    ensures NoneEmpty(Merge(pieces))
  {
    if |pieces| >= 2 {
      MergedNotEmpty(pieces[1..]);
    }
  }

  lemma {:induction false} PiecesNotEmpty(blocks: seq<Block>, claims: Claims)
    ensures NoneEmpty(PiecesOf(blocks, claims))
  {
    if blocks != [] {
      PiecesNotEmpty(blocks[1..], claims);
    }
  }

  lemma {:induction false} JoinedIsTrimmed(pieces: seq<Piece>)
    requires AreTrimmed(pieces)
    ensures Trim(Join(pieces)) == Join(pieces)
  {
    if pieces == [] {
      NothingToTrim();
    } else {
      JoinedEndsInText(pieces);
      TrimTrimmed(Join(pieces));
    }
  }

  lemma {:induction false} JoinedEndsInText(pieces: seq<Piece>)
    requires AreTrimmed(pieces) && pieces != []
    ensures IsTrimmed(Join(pieces))
  {
    assert IsTrimmed(PieceText(pieces[0]));
    if |pieces| > 1 {
      JoinedEndsInText(pieces[1..]);
      JoinMany(pieces);
      hide Join, PieceText;
    } else {
      assert pieces == [pieces[0]];
      JoinOne(pieces[0]);
    }
  }

  // ---------- Printing what was parsed ----------

  /** Spaces stand at the ends of paragraphs only where the whole text ends. */
  ghost predicate MeetImagesTidily(blocks: seq<Block>, claims: Claims) {
    AreTrimmed(TrimEnds(Merge(PiecesOf(blocks, claims))))
  }

  /** No token start in a paragraph is left open, so that an image behind it would close it. */
  ghost predicate NothingIsLeftOpen(blocks: seq<Block>, claims: Claims) {
    AreClosed(Merge(PiecesOf(blocks, claims)))
  }

  ghost predicate AreClosed(pieces: seq<Piece>) {
    forall i :: 0 <= i < |pieces| && pieces[i].Text? ==> IsSafe(pieces[i].text, true)
  }

  /** The pieces of the parsed blocks: the tidy ones, and the tokens of all media if there was no image. */
  function Reprinted(pieces: seq<Piece>, media: seq<Media>): seq<Piece> {
    if HasToken(pieces) then Tidy(Merge(pieces)) else Tidy(Merge(pieces)) + Tokens(media)
  }

  lemma ParsedPieces(blocks: seq<Block>, claims: Claims, media: seq<Media>)
    requires PrintsUrls(blocks, claims) && AreListed(blocks, claims, media) && AreStored(media)
    requires NoTokenForms(blocks, claims)
    ensures PiecesOf(ParsedBlocks(ReviewContent(blocks, claims), media), CacheMedia(claims, media))
            == Reprinted(PiecesOf(blocks, claims), media)
  {
    var pieces, claims' := PiecesOf(blocks, claims), CacheMedia(claims, media);
    var merged, content := Merge(pieces), ReviewContent(blocks, claims);
    var tidy := Tidy(merged);
    forall k | 0 <= k < |media|
      ensures IsClaimed(media[k].id, claims') && claims'[media[k].id] == media[k].url
    {
      CachedMedia(claims, media, k);
    }
    PiecesShow(blocks, claims, media);
    hide Merge, Tidy, PiecesOf, ToBlocks, ParsedBlocks, ReviewContent, ParsePieces, AreSafe, HoldUrls, AreFound, Trim;
    hide AreStored, AreListed, PrintsUrls, ParsesTo, HasToken, HasImage, AreTrimmed, IsMerged, Join, WithImages;
    hide IsClaimed;
    ContentIsJoined(blocks, claims);
    ParsePrintedExactly(pieces);
    MergedHoldsUrls(pieces);
    TidyFacts(merged);
    MergedBlocks(pieces, media);
    TidyShows(merged, media);
    MergeKeepsTokens(pieces);
    ImagesAreTokens(tidy, media);
    ParsedIs(content, media);
    TrimmedNotEmpty(tidy);
    PiecesOfBlocks(tidy, claims, media);
    PiecesOfConcat(ToBlocks(tidy, media), Images(media), claims');
    PiecesOfImages(media, 0, claims');
    WithImagesIs(ToBlocks(tidy, media), media);
    assert Images(media)[0..] == Images(media) && Tokens(media)[0..] == Tokens(media);
  }

  lemma TrimmedNotEmpty(pieces: seq<Piece>)
    requires AreTrimmed(pieces)
    ensures NoneEmpty(pieces)
  {
  }

  lemma WithImagesIs(blocks: seq<Block>, media: seq<Media>)
    ensures WithImages(blocks, media) == if HasImage(blocks) then blocks else blocks + Images(media)
  {
  }

  /** The text in terms of its merged pieces. */
  lemma ContentIsEnds(blocks: seq<Block>, claims: Claims)
    requires PrintsUrls(blocks, claims)
    ensures ReviewContent(blocks, claims) == Join(TrimEnds(Merge(PiecesOf(blocks, claims))))
  {
    var pieces := PiecesOf(blocks, claims);
    UrlsAreHeld(blocks, claims);
    hide *;
    ContentIsJoined(blocks, claims);
    JoinMerged(pieces);
    MergedHoldsUrls(pieces);
    EndsAreTrimmed(Merge(pieces));
  }

  lemma {:induction false} UrlsAreHeld(blocks: seq<Block>, claims: Claims)
    requires PrintsUrls(blocks, claims)
    ensures HoldUrls(PiecesOf(blocks, claims))
  {
    if blocks != [] {
      assert blocks[0] in blocks && forall b :: b in blocks[1..] ==> b in blocks;
      UrlsAreHeld(blocks[1..], claims);
    }
  }

  lemma TokensAreTrimmed(tidy: seq<Piece>, media: seq<Media>)
    requires AreTrimmed(tidy)
    ensures AreTrimmed(tidy + Tokens(media))
  {
  }

  lemma ReprintedIsTrimmed(pieces: seq<Piece>, media: seq<Media>)
    requires HoldUrls(pieces)
    ensures Trim(Join(Reprinted(pieces, media))) == Join(Reprinted(pieces, media))
  {
    MergedHoldsUrls(pieces);
    hide HoldUrls, Merge, HasToken, Join, Trim, Tidy;
    TidyFacts(Merge(pieces));
    TokensAreTrimmed(Tidy(Merge(pieces)), media);
    JoinedIsTrimmed(Reprinted(pieces, media));
  }

  lemma ParsedContent(blocks: seq<Block>, claims: Claims, media: seq<Media>)
    requires PrintsUrls(blocks, claims) && AreListed(blocks, claims, media) && AreStored(media)
    requires NoTokenForms(blocks, claims)
    ensures ReviewContent(ParsedBlocks(ReviewContent(blocks, claims), media), CacheMedia(claims, media))
            == Join(Reprinted(PiecesOf(blocks, claims), media))
  {
    UrlsAreHeld(blocks, claims);
    hide *;
    ParsedPieces(blocks, claims, media);
    ContentIsJoined(ParsedBlocks(ReviewContent(blocks, claims), media), CacheMedia(claims, media));
    ReprintedIsTrimmed(PiecesOf(blocks, claims), media);
  }

  lemma NoTokenOnePiece(merged: seq<Piece>)
    requires IsMerged(merged) && !HasToken(merged)
    ensures |merged| <= 1 && TrimEnds(merged) == Tidy(merged)
  {
    assert forall i :: 0 <= i < |merged| ==> merged[i].Text?;
    if |merged| >= 2 {
      NotAdjacent(merged, 0);
    } else if |merged| == 1 {
      assert merged == [Text(merged[0].text)];
      hide TrimEnds, Tidy;
      OnePieceEnds(merged[0].text);
      TidyOne(merged[0]);
    }
  }

  lemma OnePieceEnds(text: string)
    ensures TrimEnds([Text(text)]) == TextPiece(text)
  {
    var core := TrimStart(text);
    assert Trim(text) == TrimEnd(core);
    hide TrimStart, Trim;
    NothingBehind([Text(text)]);
    if core != "" {
      assert TrimFront([Text(text)]) == [Text(core)];
      NothingBehind([Text(core)]);
    } else {
      assert TrimFront([Text(text)]) == [];
    }
  }

  lemma NothingBehind(one: seq<Piece>)
    requires |one| == 1
    ensures one[1..] == [] && one[..0] == []
  {
  }

  lemma MoreIsLonger(tidy: seq<Piece>, media: seq<Media>)
    requires media != [] && NoneEmpty(tidy)
    ensures Join(tidy + Tokens(media)) != Join(tidy)
  {
    hide PieceText;
    JoinSizeConcat(tidy, Tokens(media));
    JoinedSize(tidy + Tokens(media));
    if tidy != [] {
      JoinedSize(tidy);
    }
    SizeOfSome(Tokens(media));
  }

  /** Printing the parsed blocks gives the same text again, exactly if it showed an image or there are no media, and
      paragraphs meet images without spaces. */
  lemma ContentIsFixedExactly(blocks: seq<Block>, claims: Claims, media: seq<Media>)
    requires PrintsUrls(blocks, claims) && AreListed(blocks, claims, media) && AreStored(media)
    requires NoTokenForms(blocks, claims)
    ensures ReviewContent(ParsedBlocks(ReviewContent(blocks, claims), media), CacheMedia(claims, media))
            == ReviewContent(blocks, claims)
            <==> (HasImage(ShownBlocks(blocks, claims, media)) || media == []) && MeetImagesTidily(blocks, claims)
  {
    var pieces := PiecesOf(blocks, claims);
    var merged := Merge(pieces);
    PiecesShow(blocks, claims, media);
    hide Merge, Tidy, PiecesOf, ToBlocks, ParsedBlocks, ReviewContent, HoldUrls, AreFound, AreStored, AreListed;
    hide PrintsUrls, HasToken, HasImage, AreTrimmed, IsMerged, Join, TrimEnds, NoneEmpty, NoTokenForms;
    ParsedContent(blocks, claims, media);
    ContentIsEnds(blocks, claims);
    ImagesAreTokens(pieces, media);
    MergedHoldsUrls(pieces);
    MergeKeepsTokens(pieces);
    PiecesNotEmpty(blocks, claims);
    MergedNotEmpty(pieces);
    EndsNotEmpty(merged);
    EndsAreTidied(merged);
    TidyJoinsExactly(TrimEnds(merged));
    if !HasToken(pieces) {
      NoTokenOnePiece(merged);
      TidyFacts(merged);
      TrimmedNotEmpty(Tidy(merged));
      if media == [] {
        assert Tidy(merged) + Tokens(media) == Tidy(merged);
      } else {
        MoreIsLonger(Tidy(merged), media);
      }
    }
  }

  // ---------- Parsing what was printed again ----------

  lemma {:induction false} MergedStays(pieces: seq<Piece>)
    requires IsMerged(pieces)
    ensures Merge(pieces) == pieces
  {
    if |pieces| >= 2 {
      assert !(pieces[0].Text? && pieces[0 + 1].Text?);
      assert forall i :: 0 <= i < |pieces| - 1 ==> pieces[1..][i] == pieces[i + 1];
      MergedStays(pieces[1..]);
    }
  }

  lemma TextsThenTokens(merged: seq<Piece>, media: seq<Media>)
    requires IsMerged(merged) && !HasToken(merged)
    ensures IsMerged(merged + Tokens(media))
  {
    assert forall i :: 0 <= i < |merged| ==> merged[i].Text?;
    if |merged| >= 2 {
      assert !(merged[0].Text? && merged[0 + 1].Text?);
    }
  }

  predicate HaveOwnUrls(media: seq<Media>) {
    forall i, j :: 0 <= i < j < |media| ==> media[i].url != media[j].url
  }

  lemma {:induction false} FirstOfUrl(media: seq<Media>, i: nat) returns (k: nat)
    requires i < |media|
    ensures k <= i && FindMedia(media, media[i].url) == Some(media[k])
  {
    if media[0].url == media[i].url {
      k := 0;
    } else {
      k := FirstOfUrl(media[1..], i - 1);
      k := k + 1;
    }
  }

  lemma TokensAreFound(media: seq<Media>)
    ensures AreFound(Tokens(media), media)
  {
    hide FindMedia;
    forall i | 0 <= i < |media|
      ensures FindMedia(media, media[i].url).Some?
    {
      var k := FirstOfUrl(media, i);
    }
  }

  /** The token of medium i is shown as the first medium of its url. */
  lemma TokenBlocks(media: seq<Media>)
    ensures AreFound(Tokens(media), media) && |ToBlocks(Tokens(media), media)| == |media|
    ensures forall i :: 0 <= i < |media| ==> IsTokenBlock(media, i)
  {
    TokensAreFound(media);
    FoundPieces(Tokens(media), media);
    hide FindMedia, ToBlocks;
    forall i | 0 <= i < |media|
      ensures IsTokenBlock(media, i)
    {
      assert PieceBlocks(Tokens(media)[i], media) == [ToBlocks(Tokens(media), media)[i]];
      assert FindMedia(media, Tokens(media)[i].url).Some?;
    }
  }

  predicate IsTokenBlock(media: seq<Media>, i: nat)
    requires i < |media|
  {
    var first, blocks := FindMedia(media, media[i].url), ToBlocks(Tokens(media), media);
    first.Some? && i < |blocks| && blocks[i] == Image(first.value.id)
  }

  lemma OwnTokenBlock(media: seq<Media>, i: nat)
    requires HaveOwnUrls(media) && i < |media| && IsTokenBlock(media, i)
    ensures ToBlocks(Tokens(media), media)[i] == Image(media[i].id)
  {
    hide FindMedia, ToBlocks;
    var k := FirstOfUrl(media, i);
  }

  lemma SharedTokenBlock(media: seq<Media>, i: nat, j: nat)
    requires AreStored(media) && i < j < |media| && media[i].url == media[j].url && IsTokenBlock(media, j)
    ensures ToBlocks(Tokens(media), media)[j] != Image(media[j].id)
  {
    hide FindMedia, ToBlocks;
    var k := FirstOfUrl(media, i);
    assert media[k].id != media[j].id;
  }

  /** Tokens of all media stand for these media exactly if no two share a url. */
  lemma {:induction false} TokensAreImagesExactly(media: seq<Media>)
    requires AreStored(media)
    ensures ToBlocks(Tokens(media), media) == Images(media) <==> HaveOwnUrls(media)
  {
    TokenBlocks(media);
    hide ToBlocks, AreStored, IsTokenBlock, AreFound;
    if HaveOwnUrls(media) {
      forall i: nat | i < |media|
        ensures ToBlocks(Tokens(media), media)[i] == Images(media)[i]
      {
        OwnTokenBlock(media, i);
      }
      assert ToBlocks(Tokens(media), media) == Images(media);
    } else {
      var i: nat, j: nat :| i < j < |media| && media[i].url == media[j].url;
      SharedTokenBlock(media, i, j);
    }
  }

  lemma ImageFound(blocks: seq<Block>, i: nat)
    requires i < |blocks| && blocks[i].Image?
    ensures HasImage(blocks)
  {
  }

  lemma SameTail<T>(a: seq<T>, b: seq<T>, c: seq<T>)
    ensures a + b == a + c <==> b == c
  {
    if a + b == a + c {
      assert (a + b)[|a|..] == b && (a + c)[|a|..] == c;
    }
  }

  lemma AddedTokensHold(tidy: seq<Piece>, media: seq<Media>)
    requires HoldUrls(tidy) && AreStored(media)
    ensures HoldUrls(tidy + Tokens(media))
  {
  }

  lemma ReprintedFacts(pieces: seq<Piece>, media: seq<Media>)
    requires HoldUrls(pieces) && AreStored(media)
    ensures var reprinted := Reprinted(pieces, media);
            IsMerged(reprinted) && HoldUrls(reprinted) && AreTrimmed(reprinted)
  {
    var merged := Merge(pieces);
    MergedHoldsUrls(pieces);
    MergeKeepsTokens(pieces);
    hide HoldUrls, IsMerged, AreTrimmed, HasToken, AreStored, Merge, Tidy;
    TidyFacts(merged);
    if !HasToken(pieces) {
      TextsThenTokens(Tidy(merged), media);
      AddedTokensHold(Tidy(merged), media);
      TokensAreTrimmed(Tidy(merged), media);
    }
  }

  /** What is printed again is parsed to its pieces if they are safe, and else shows less text. */
  lemma SecondParse(pieces: seq<Piece>, media: seq<Media>)
    requires HoldUrls(pieces) && AreStored(media)
    ensures var reprinted := Reprinted(pieces, media); ParsesTo(Join(reprinted), AreSafe(reprinted), reprinted)
  {
    var reprinted := Reprinted(pieces, media);
    ReprintedFacts(pieces, media);
    hide *;
    ReprintedIsTrimmed(pieces, media);
    MergedStays(reprinted);
    TidyStays(reprinted);
    ParsePrintedExactly(reprinted);
  }

  lemma SafeBeforeTokens(merged: seq<Piece>, media: seq<Media>)
    requires IsMerged(merged) && !HasToken(merged) && media != []
    ensures AreSafe(Tidy(merged) + Tokens(media)) <==> AreClosed(merged)
  {
    NoTokenOnePiece(merged);
    if merged == [] {
      assert [] + Tokens(media) == Tokens(media);
      TokensAreSafe(media);
    } else {
      assert merged[0].Text?;
      hide AreSafe, IsMerged, IsSafe;
      assert merged == [Text(merged[0].text)];
      SafeTextBeforeTokens(merged[0].text, media);
      TidyOne(merged[0]);
      OneIsClosed(merged[0].text);
    }
  }

  lemma OneIsClosed(text: string)
    ensures AreClosed([Text(text)]) <==> IsSafe(text, true)
  {
    hide IsSafe;
    if AreClosed([Text(text)]) {
      assert [Text(text)][0].Text?;
    }
  }

  lemma SafeTextBeforeTokens(text: string, media: seq<Media>)
    requires media != []
    ensures AreSafe(TextPiece(text) + Tokens(media)) <==> IsSafe(text, true)
  {
    SafeTrimmed(text, true);
    TokensAreSafe(media);
    hide IsSafe, Trim;
    if Trim(text) == "" {
      BlankIsSafe();
      assert [] + Tokens(media) == Tokens(media);
    } else {
      var all := [Text(Trim(text))] + Tokens(media);
      assert all[1..] == Tokens(media);
      SafeFirst(all);
      hide AreSafe;
    }
  }

  lemma BlankIsSafe()
    ensures IsSafe("", true)
  {
  }

  lemma TokensAreSafe(media: seq<Media>)
    ensures AreSafe(Tokens(media))
  {
  }

  /** With all media behind a text that showed no image, the same blocks come back exactly if no two share a url. */
  lemma SecondBlocks(tidy: seq<Piece>, media: seq<Media>)
    requires AreStored(media) && media != [] && AreFound(tidy, media) && !HasToken(tidy)
    ensures WithImages(ToBlocks(tidy + Tokens(media), media), media) == WithImages(ToBlocks(tidy, media), media)
            <==> HaveOwnUrls(media)
  {
    var text, tokens := ToBlocks(tidy, media), ToBlocks(Tokens(media), media);
    TokenBlocks(media);
    assert IsTokenBlock(media, 0);
    hide ToBlocks, AreStored, HaveOwnUrls, HasToken, HasImage, FindMedia, AreFound;
    ToBlocksConcat(tidy, Tokens(media), media);
    ImagesAreTokens(tidy, media);
    WithImagesIs(text, media);
    WithImagesIs(text + tokens, media);
    assert (text + tokens)[|text|] == tokens[0];
    ImageFound(text + tokens, |text|);
    TokensAreImagesExactly(media);
    SameTail(text, tokens, Images(media));
  }

  lemma TokensShowNoText(tidy: seq<Piece>, media: seq<Media>)
    ensures TextLength(tidy + Tokens(media)) == TextLength(tidy)
  {
    TextLengthConcat(tidy, Tokens(media));
    NoTextInTokens(Tokens(media));
  }

  lemma {:induction false} NoTextInTokens(pieces: seq<Piece>)
    requires forall i :: 0 <= i < |pieces| ==> pieces[i].Token?
    ensures TextLength(pieces) == 0
  {
    if pieces != [] {
      NoTextInTokens(pieces[1..]);
    }
  }

  /** What a text that shows less than the parsed blocks is parsed to is something else. */
  lemma LessIsOther(content: string, tidy: seq<Piece>, media: seq<Media>)
    requires TextLength(ParsePieces(content)) < TextLength(tidy)
    ensures ParsedBlocks(content, media) != WithImages(ToBlocks(tidy, media), media)
  {
    hide *;
    ParsedShowsText(content, media);
    WithImagesShowsText(ToBlocks(tidy, media), media);
    BlocksShowText(tidy, media);
  }

  /** The parsed blocks are parsed again from what they are printed as, exactly if the text showed an image, or there is
      nothing to add, or the media have urls of their own and no token start in the text is left open for them. */
  lemma ParsedBlocksAreFinalExactly(blocks: seq<Block>, claims: Claims, media: seq<Media>)
    requires PrintsUrls(blocks, claims) && AreListed(blocks, claims, media) && AreStored(media)
    requires NoTokenForms(blocks, claims)
    ensures var parsed := ParsedBlocks(ReviewContent(blocks, claims), media);
            ParsedBlocks(ReviewContent(parsed, CacheMedia(claims, media)), media) == parsed
            <==> || HasImage(ShownBlocks(blocks, claims, media)) || media == []
                 || (HaveOwnUrls(media) && NothingIsLeftOpen(blocks, claims))
  {
    var pieces, content := PiecesOf(blocks, claims), ReviewContent(blocks, claims);
    var merged := Merge(pieces);
    var tidy, again := Tidy(merged), Reprinted(pieces, media);
    PiecesShow(blocks, claims, media);
    ParsePrintedExactly(pieces);
    hide Merge, Tidy, PiecesOf, ToBlocks, ParsedBlocks, ReviewContent, HoldUrls, AreFound, AreStored, AreListed;
    hide PrintsUrls, HasToken, HasImage, AreTrimmed, IsMerged, Join, ParsePieces, AreSafe, AreClosed, HaveOwnUrls;
    hide Trim, TextLength, WithImages;
    ContentIsJoined(blocks, claims);
    ParsedIs(content, media);
    ParsedContent(blocks, claims, media);
    ParsedIs(Join(again), media);
    SecondParse(pieces, media);
    MergedHoldsUrls(pieces);
    MergeKeepsTokens(pieces);
    TidyFacts(merged);
    ImagesAreTokens(pieces, media);
    if !HasToken(pieces) && media != [] {
      MergedBlocks(pieces, media);
      TidyShows(merged, media);
      SafeBeforeTokens(merged, media);
      SecondBlocks(tidy, media);
      if !AreSafe(again) {
        TokensShowNoText(tidy, media);
        LessIsOther(Join(again), tidy, media);
      }
    } else {
      assert media == [] ==> tidy + Tokens(media) == tidy;
    }
  }

  // ---------- Ordinary reviews, and one that is not ----------

  predicate HasNoStart(s: string) {
    forall i :: 0 <= i <= |s| ==> !StartsAt(s, i)
  }

  lemma NoStartJoined(a: string, b: string)
    requires HasNoStart(a) && HasNoStart(b)
    ensures HasNoStart(a + SEPARATOR + b)
  {
    var s := a + SEPARATOR + b;
    assert s[|a|] == '\n' && s[|a| + 1] == '\n';
    forall i: nat | i <= |s|
      ensures !StartsAt(s, i)
    {
      if i + |TOKEN_START| <= |a| {
        assert s[i..i + |TOKEN_START|] == a[i..i + |TOKEN_START|];
        assert !StartsAt(a, i);
      } else if i <= |a| {
        SpaceStopsStart(s, i, |a|);
      } else if i == |a| + 1 {
        SpaceStopsStart(s, i, i);
      } else if i + |TOKEN_START| <= |s| {
        var k := i - |a| - 2;
        assert s[i..i + |TOKEN_START|] == b[k..k + |TOKEN_START|];
        assert !StartsAt(b, k);
      }
    }
  }

  predicate HaveNoStarts(pieces: seq<Piece>) {
    forall i :: 0 <= i < |pieces| ==> StartsNothing(pieces[i])
  }

  predicate StartsNothing(p: Piece) {
    p.Text? ==> HasNoStart(p.text)
  }

  lemma {:induction false} NoStartMerged(pieces: seq<Piece>)
    requires HaveNoStarts(pieces)
    ensures HaveNoStarts(Merge(pieces))
  {
    if |pieces| >= 2 {
      var rest := Merge(pieces[1..]);
      NoStartMerged(pieces[1..]);
      assert StartsNothing(pieces[0]) && StartsNothing(rest[0]);
      hide HasNoStart;
      if pieces[0].Text? && rest[0].Text? {
        NoStartJoined(pieces[0].text, rest[0].text);
      }
    }
  }

  /** No paragraph holds the start of a token. */
  predicate ArePlain(blocks: seq<Block>) {
    forall i :: 0 <= i < |blocks| && blocks[i].Paragraph? ==> HasNoStart(blocks[i].text)
  }

  lemma {:induction false} NoStartPieces(blocks: seq<Block>, claims: Claims)
    requires ArePlain(blocks)
    ensures HaveNoStarts(PiecesOf(blocks, claims))
  {
    hide HasNoStart;
    if blocks != [] {
      NoStartPieces(blocks[1..], claims);
      assert HaveNoStarts(PieceOf(blocks[0], claims));
    }
  }

  /** Where no paragraph holds the start of a token, none forms and none is left open. */
  lemma PlainParagraphsAreSafe(blocks: seq<Block>, claims: Claims)
    requires ArePlain(blocks)
    ensures NoTokenForms(blocks, claims) && NothingIsLeftOpen(blocks, claims)
  {
    var merged := Merge(PiecesOf(blocks, claims));
    NoStartPieces(blocks, claims);
    NoStartMerged(PiecesOf(blocks, claims));
    forall i, followed | 0 <= i < |merged| && merged[i].Text?
      ensures IsSafe(merged[i].text, followed)
    {
      assert StartsNothing(merged[i]);
    }
    hide IsSafe;
  }

  /** A review whose token start is left open: the image behind it is swallowed. */
  lemma OpenStartSwallowsImage() returns (blocks: seq<Block>, claims: Claims, media: seq<Media>)
    ensures |blocks| == 2 && blocks[1].Image?
    ensures PrintsUrls(blocks, claims) && AreListed(blocks, claims, media)
    ensures ParsedBlocks(ReviewContent(blocks, claims), media)
            != WithImages(TidyBlocks(MergeBlocks(ShownBlocks(blocks, claims, media))), media)
  {
    var text := TOKEN_START + "x";
    blocks, claims, media := [Paragraph(text), Image("m")], map["m" := "u"], [Media("m", "u")];
    assert text[0..|TOKEN_START|] == TOKEN_START;
    assert TokenForms(text, 0, true);
    var pieces := PiecesOf(blocks, claims);
    assert blocks[1..] == [Image("m")] && blocks[1..][1..] == [];
    assert PiecesOf(blocks[1..], claims) == [Token("u")] + PiecesOf([], claims);
    assert pieces == [Text(text)] + PiecesOf(blocks[1..], claims);
    assert pieces == [Text(text), Token("u")];
    assert pieces[1..] == [Token("u")];
    assert !IsSafeAt(Merge(pieces), 0);
    ReviewRoundTripExactly(blocks, claims, media);
  }
}
