/**
 The bacchant encoder of site-encoder/cryptagram-compiled.js: the dimensions of the image, the header
 as the reader expects it, the text, and random levels in the blocks that are left. When text and
 dimensions let it reach below the header, exactly the payloads of ComesBack are read back.
 */
module SiteEncoder {
  import opened Base64Symbols
  import opened Bacchant
  import opened BacchantImage
  import opened BacchantBlocks
  import opened BacchantWriter
  import opened SiteBlocks
  import opened SiteFilling
  import G = Grid
  import D = ImageDimensions

  // ----- dimensions

  // Rounded up twice, to whole cells of 4 by 2 pixels. root is the unrounded height that the source takes a
  // square root for.
  function SiteWidth(ratio: real, root: real): (width: int)
    ensures width % 4 == 0 && D.Ceil(ratio * root) <= width < D.Ceil(ratio * root) + 4
  {
    (D.Ceil(ratio * root) + 3) / 4 * 4
  }

  function SiteHeight(root: real): (height: int)
    ensures height % 2 == 0 && D.Ceil(root) <= height < D.Ceil(root) + 2
  {
    (D.Ceil(root) + 1) / 2 * 2
  }

  // The text and the header have 8 pixels a character, of which the ratio gives the height.
  ghost predicate IsRoot(ratio: real, root: real, length: nat) {
    ratio > 0.0 && root > 0.0 && ratio * root * root == (8 * length + 64) as real
  }

  // There is always room for the text, except that the header wants 8 by 8 pixels.
  lemma {:induction false} SiteHasRoom(ratio: real, root: real, length: nat)
    requires IsRoot(ratio, root, length)
    ensures SiteWidth(ratio, root) > 0 && SiteHeight(root) > 0
    ensures HasRoom(SiteWidth(ratio, root), SiteHeight(root), length)
            <==> SiteWidth(ratio, root) >= 8 && SiteHeight(root) >= 8
  {
    hide D.Ceil;
    var size := (8 * length + 64) as real;
    var wide, high := SiteWidth(ratio, root), SiteHeight(root);
    PositiveReal(ratio, root);
    Quotient(ratio * root, root, size);
    D.Capacity(ratio * root, size, wide, high);
    CellArea(wide, high);
  }

  lemma PositiveReal(a: real, b: real)
    requires a > 0.0 && b > 0.0
    ensures a * b > 0.0
  {}

  lemma Quotient(a: real, b: real, c: real)
    requires a > 0.0 && a * b == c
    ensures c / a == b
  {}

  lemma CellArea(wide: int, high: int)
    requires wide % 4 == 0 && high % 2 == 0
    ensures wide * high == 8 * (wide / 4 * (high / 2))
  {
    var a, b := wide / 4, high / 2;
    assert wide == 4 * a && high == 2 * b;
  }

  // ----- symbols

  // The level of symbol i. A character outside the alphabet has index -1 and an undefined level, which
  // the image stores as 0.
  function SiteLevel(text: string, i: nat): nat
    requires i < 2 * |text|
  {
    match IndexOf(text[i / 2])
    case Some(index) => CharOfIndex(text[i / 2]); Level(if i % 2 == 0 then index / 8 else index % 8)
    case None => 0
  }

  // Such a character is drawn like the first one of the alphabet.
  lemma {:induction false} SiteLevelIs(text: string, i: nat)
    requires i < 2 * |text|
    ensures SiteLevel(text, i) == Level(SymbolOf(text, i))
  {
    if !IsBase64(text[i / 2]) {
      assert SymbolIndex(text[i / 2]) == 0;
    }
  }

  // ----- encode

  // In an image that its text reaches below the header, exactly the payloads of ComesBack are read back,
  // whatever the random levels. Otherwise some squares of header and text get random levels, and the payload
  // is read back only if these happen to be right.
  method Encode(payload: string, ratio: real, root: real, fill: nat -> nat)
    returns (image: seq<Byte>, width: nat, height: nat)
    requires IsRoot(ratio, root, |FullText(payload)|) && forall q :: fill(q) < 8
    requires SiteWidth(ratio, root) >= 8 && SiteHeight(root) >= 8
    ensures width == SiteWidth(ratio, root) && height == SiteHeight(root) && |image| == 4 * (width * height)
    ensures |FullText(payload)| > 0
    ensures var first := FirstFilled(width, |FullText(payload)|);
            var back := Decoded(width, height, image) == Outcome(Some(payload), Done);
            && (ReachesBelow(width, |FullText(payload)|) ==>
                  HeaderNear(image, width) && TextNear(image, width, FullText(payload))
                  && (back <==> ComesBack(width / 4, payload)))
            && (width >= 12 ==>
                  (back <==> HeaderAgrees(width, fill, first) && PayloadShown(image, width / 4, height / 2, payload)))
            && (|payload| != 1 ==>
                  (back <==> ComesBack(width / 4, payload) && HeaderAgrees(width, fill, first)
                             && TextAgrees(width, FullText(payload), fill, first)))
    ensures !ReachesBelow(width, |FullText(payload)|) ==>
              var q := SlotNumber(width, 2 * |FullText(payload)| - 1);
              BlockAt(image, width, q, Level(fill(q)))
  {
    hide HeaderNear, TextNear, SlotNumber, BlockAt;
    hide FullText, Decoded, SiteWidth, SiteHeight, IsRoot, ReachesBelow, ComesBack, HeaderAgrees, TextAgrees;
    hide FirstFilled;
    hide IsDrawn, PayloadShown;
    var text := FullText(payload);
    SiteHasRoom(ratio, root, |text|);
    width, height := SiteWidth(ratio, root), SiteHeight(root);
    TextNotEmpty(payload);
    ghost var written;
    image, written := Draw(text, width, height, fill);
    FillingDecides(written, image, width, height, payload, fill);
    if !ReachesBelow(width, |text|) {
      LastSquareFilled(written, image, width, height, text, fill);
    }
  }

  // Images of eight pixels height are such: the text is all beside the header, for every text.
  lemma {:induction false} EightPixelsHigh(ratio: real, length: nat)
    requires IsRoot(ratio, 8.0, length)
    ensures SiteHeight(8.0) == 8 && SiteWidth(ratio, 8.0) >= 8
    ensures !ReachesBelow(SiteWidth(ratio, 8.0), length)
  {
    assert ratio * 8.0 == (length + 8) as real;
  }

  // ----- square images, the default

  lemma RootBound(root: real, bound: nat, square: nat)
    requires root > 0.0 && root * root == square as real
    ensures square <= bound * bound <==> root <= bound as real
  {
    var b := bound as real;
    assert b * b == (bound * bound) as real;
    if root > b {
      LargerSquare(root, b);
    } else {
      assert root * root <= b * b;
    }
  }

  lemma LargerSquare(a: real, b: real)
    requires a > b >= 0.0
    ensures a * a > b * b
  {
    assert (a - b) * a > 0.0 && (a - b) * b >= 0.0;
  }

  // With ratio 1, there is room for the header, the text reaches below it, and the length is in the top row
  // from 147 characters on.
  lemma {:induction false} SquareImage(payload: string, root: real)
    requires IsRoot(1.0, root, |FullText(payload)|)
    ensures SiteWidth(1.0, root) >= 12 && SiteHeight(root) >= 12
    ensures ReachesBelow(SiteWidth(1.0, root), |FullText(payload)|)
    ensures SiteWidth(1.0, root) >= 40 <==> |payload| >= 147
    ensures |payload| == 1 ==> SiteWidth(1.0, root) == 12
  {
    hide LengthField;
    LengthFieldParses(|payload|, 8);
    var length := |FullText(payload)|;
    var square := 8 * length + 64;
    assert 1.0 * root == root;
    RootBound(root, 11, square);
    RootBound(root, 12, square);
    RootBound(root, 36, square);
    RootBound(root, length + 4, square);
    SquareOfText(length);
  }

  lemma SquareOfText(length: nat)
    requires length >= 8
    ensures 8 * length + 64 <= (length + 4) * (length + 4)
  {
    G.RowMonotonic(8, length, length);
    assert (length + 4) * (length + 4) == length * length + 8 * length + 16;
  }

  // The payloads that a square image gives back: not the short ones, but for "0"
  lemma {:induction false} SquareComesBack(payload: string, root: real)
    requires IsRoot(1.0, root, |FullText(payload)|)
    ensures SiteWidth(1.0, root) >= 8
    ensures ComesBack(SiteWidth(1.0, root) / 4, payload) <==>
              (147 <= |payload| < 100000000 && AllBase64(payload)) || payload == "0"
  {
    hide SiteWidth, SiteHeight, IsRoot, FullText;
    SquareImage(payload, root);
  }
}
