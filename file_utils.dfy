/**
 * Helpers the file list uses to describe stored files: the upper-cased
 * extension of a name, whether a name denotes an image, and a file size in
 * bytes, KB, MB or GB.
 */
module FileUtils {
  import opened Text
  import Decimal
  import opened Units

  // ---------------------------------------------------------------------------
  // Extensions

  /** `fileName.split('.').pop()`: the text after the last dot, or the whole name without a dot. */
  function LastPiece(fileName: string): (r: string)
    ensures '.' !in r
  {
    var pieces := Split(fileName, '.');
    SplitPiecesFree(fileName, '.');
    pieces[|pieces| - 1]
  }

  lemma LastPieceIs(fileName: string, k: int)
    ensures '.' !in fileName ==> LastPiece(fileName) == fileName
    ensures IsLastIndexOf(fileName, '.', k) ==> LastPiece(fileName) == fileName[k + 1..]
  {
    if '.' !in fileName {
      SplitNoSeparator(fileName, '.');
    }
    if IsLastIndexOf(fileName, '.', k) {
      SplitAtLast(fileName, '.', k);
    }
  }

  /**
   * `getFileExtension`: the empty text for a name with one piece (no dot) or
   * with an empty first piece and exactly two pieces (a single leading dot),
   * otherwise the upper-cased last piece.
   */
  function GetFileExtension(fileName: string): string {
    var pieces := Split(fileName, '.');
    if |pieces| == 1 || (pieces[0] == "" && |pieces| == 2) then ""
    else ToUpper(pieces[|pieces| - 1])
  }

  /**
   * The extension is the upper-cased text after the last dot, except that a
   * name whose only dot is its first character (a hidden file) has none, and
   * a name without a dot has none.
   */
  lemma GetFileExtensionAfterLastDot(fileName: string, k: int)
    ensures '.' !in fileName ==> GetFileExtension(fileName) == ""
    ensures IsLastIndexOf(fileName, '.', k) ==>
              GetFileExtension(fileName) == if k == 0 then "" else ToUpper(fileName[k + 1..])
  {
    SplitSingleIff(fileName, '.');
    if IsLastIndexOf(fileName, '.', k) {
      SplitAtLast(fileName, '.', k);
      var before := Split(fileName[..k], '.');
      if k == 0 {
        assert before == [""];
      } else if |before| == 1 {
        SplitSingleIff(fileName[..k], '.');
        SplitNoSeparator(fileName[..k], '.');
        assert before[0] != "";
      }
    }
  }

  /** A name ending in a dot has no extension, and no extension contains a dot. */
  lemma GetFileExtensionEdges(fileName: string)
    ensures |fileName| > 0 && fileName[|fileName| - 1] == '.' ==> GetFileExtension(fileName) == ""
    ensures '.' !in GetFileExtension(fileName)
  {
    if |fileName| > 0 && fileName[|fileName| - 1] == '.' {
      var k := |fileName| - 1;
      assert fileName[k + 1..] == "";
      GetFileExtensionAfterLastDot(fileName, k);
    }
    var pieces := Split(fileName, '.');
    SplitPiecesFree(fileName, '.');
    CaseKeepsChar(pieces[|pieces| - 1], '.');
  }

  /** A name made of a non-empty base, a dot and a dot-free extension has that extension, upper-cased. */
  lemma GetFileExtensionOfName(base: string, ext: string)
    requires |base| > 0 && '.' !in ext
    ensures GetFileExtension(base + "." + ext) == ToUpper(ext)
  {
    var name := base + "." + ext;
    var k := |base|;
    assert name[k + 1..] == ext;
    assert IsLastIndexOf(name, '.', k);
    GetFileExtensionAfterLastDot(name, k);
  }

  /** The cases the project's tests pin: `example.TXT`, `example`, `.hiddenfile` and `normalfile.`. */
  lemma GetFileExtensionUpperExample()
    ensures GetFileExtension("example.TXT") == "TXT"
  {
    assert "example.TXT" == "example" + "." + "TXT";
    GetFileExtensionOfName("example", "TXT");
    ToUpperFixed("TXT");
  }

  lemma GetFileExtensionEmptyExamples()
    ensures GetFileExtension("example") == ""
    ensures GetFileExtension(".hiddenfile") == ""
    ensures GetFileExtension("normalfile.") == ""
  {
    GetFileExtensionAfterLastDot("example", 0);
    assert ".hiddenfile" == "." + "hiddenfile";
    HiddenFileHasNoExtension("hiddenfile");
    GetFileExtensionEdges("normalfile.");
  }

  /** A name whose only dot is its first character has no extension. */
  lemma HiddenFileHasNoExtension(rest: string)
    requires '.' !in rest
    ensures GetFileExtension("." + rest) == ""
  {
    var name := "." + rest;
    assert name[1..] == rest;
    assert IsLastIndexOf(name, '.', 0);
    GetFileExtensionAfterLastDot(name, 0);
  }

  // ---------------------------------------------------------------------------
  // Images

  const ImageExtensions: seq<string> := ["jpg", "jpeg", "png", "gif"]

  /** `isImageFile`: the lower-cased last piece is one of the image extensions. */
  predicate IsImageFile(fileName: string) {
    ToLower(LastPiece(fileName)) in ImageExtensions
  }

  /**
   * A name with a dot is an image exactly when the text after its last dot is
   * an image extension in any case; a name without a dot is compared whole,
   * so a bare `png` is an image.
   */
  lemma IsImageFileIff(fileName: string, k: int)
    ensures IsLastIndexOf(fileName, '.', k) ==> (IsImageFile(fileName) <==> ToLower(fileName[k + 1..]) in ImageExtensions)
    ensures '.' !in fileName ==> (IsImageFile(fileName) <==> ToLower(fileName) in ImageExtensions)
  {
    LastPieceIs(fileName, k);
  }

  /** Past a leading dot, a name is an image exactly when its upper-cased extension, lower-cased, is an image extension. */
  lemma IsImageFileAgreesWithExtension(fileName: string, k: int)
    requires IsLastIndexOf(fileName, '.', k) && k > 0
    ensures IsImageFile(fileName) <==> ToLower(GetFileExtension(fileName)) in ImageExtensions
  {
    LastPieceIs(fileName, k);
    GetFileExtensionAfterLastDot(fileName, k);
    LowerOfUpper(fileName[k + 1..]);
  }

  /** A name made of a base, a dot and a dot-free extension is an image exactly when the extension is one, in any case. */
  lemma IsImageFileOfName(base: string, ext: string)
    requires '.' !in ext
    ensures IsImageFile(base + "." + ext) <==> ToLower(ext) in ImageExtensions
  {
    var name := base + "." + ext;
    var k := |base|;
    assert name[k + 1..] == ext;
    assert IsLastIndexOf(name, '.', k);
    IsImageFileIff(name, k);
  }

  /** Cases the project's tests pin, and a bare `png` counting as an image. */
  lemma IsImageFileJpgExample()
    ensures IsImageFile("photo.jpg")
  {
    assert "photo.jpg" == "photo" + "." + "jpg";
    IsImageFileOfName("photo", "jpg");
    ToLowerFixed("jpg");
  }

  lemma IsImageFileTxtExample()
    ensures !IsImageFile("document.txt")
  {
    assert "document.txt" == "document" + "." + "txt";
    IsImageFileOfName("document", "txt");
    ToLowerFixed("txt");
  }

  lemma IsImageFileBareNameExample()
    ensures IsImageFile("png")
  {
    IsImageFileIff("png", 0);
    ToLowerFixed("png");
  }

  // ---------------------------------------------------------------------------
  // Sizes

  /** The unit a size is shown in. */
  datatype SizeUnit = Bytes | KB | MB | GB

  /** The unit by half-open ranges of the size: each boundary belongs to the larger unit. */
  function UnitFor(size: nat): (u: SizeUnit)
    ensures u == Bytes <==> size < KiB
    ensures u == KB <==> KiB <= size < MiB
    ensures u == MB <==> MiB <= size < GiB
    ensures u == GB <==> GiB <= size
  {
    if size < KiB then Bytes
    else if size < MiB then KB
    else if size < GiB then MB
    else GB
  }

  function UnitBytes(u: SizeUnit): (b: nat)
    ensures b > 0
  {
    match u
    case Bytes => 1
    case KB => KiB
    case MB => MiB
    case GB => GiB
  }

  /** The number of decimals `toFixed` is asked for in each unit. */
  function UnitDecimals(u: SizeUnit): nat {
    match u
    case Bytes => 0
    case KB => 1
    case MB => 1
    case GB => 2
  }

  function UnitLabel(u: SizeUnit): string {
    match u
    case Bytes => " bytes"
    case KB => " KB"
    case MB => " MB"
    case GB => " GB"
  }

  /** `formatFileSize`. */
  function FormatFileSize(size: nat): string {
    if size < KiB then Decimal.NatToString(size) + " bytes"
    else if size < MiB then Decimal.ToFixed(size, KiB, 1) + " KB"
    else if size < GiB then Decimal.ToFixed(size, MiB, 1) + " MB"
    else Decimal.ToFixed(size, GiB, 2) + " GB"
  }

  /** Below 1 KiB the text is the size's own digits, without leading zeros, and ` bytes`. */
  lemma FormatFileSizeBytesReadsBack(size: nat) returns (digits: string)
    requires UnitFor(size) == Bytes
    ensures FormatFileSize(size) == digits + UnitLabel(Bytes)
    ensures Decimal.AllDigits(digits) && Decimal.DigitsValue(digits) == size
    ensures |digits| >= 1 && (digits[0] == '0' ==> size == 0)
  {
    digits := Decimal.NatToString(size);
    Decimal.NatToStringRoundTrip(size);
  }

  /**
   * From 1 KiB on the text is a number, its integer part without leading
   * zeros, with the unit's number of decimals and the unit's label; read back, the number is the multiple of 10^-decimals
   * nearest to the size in that unit (ties rounded up).
   */
  lemma FormatFileSizeScaledReadsBack(size: nat) returns (whole: string, frac: string)
    requires UnitFor(size) != Bytes
    ensures var u := UnitFor(size);
            && FormatFileSize(size) == whole + "." + frac + UnitLabel(u)
            && Decimal.AllDigits(whole) && Decimal.AllDigits(frac) && |frac| == UnitDecimals(u)
            && |whole| >= 1 && (whole[0] == '0' ==> whole == "0")
            && Decimal.DigitsValue(whole) * Decimal.Pow10(UnitDecimals(u)) + Decimal.DigitsValue(frac)
               == Decimal.RoundHalfUp(size * Decimal.Pow10(UnitDecimals(u)), UnitBytes(u))
  {
    var u := UnitFor(size);
    whole, frac := Decimal.ToFixedParts(size, UnitBytes(u), UnitDecimals(u));
  }

  /** The sizes the project's tests pin: whole multiples of a unit show zero decimals. */
  lemma FormatFileSizeBytesExample()
    ensures FormatFileSize(512) == "512 bytes"
  {
    assert Decimal.NatToString(512) == "512";
  }

  lemma FormatFileSizeKBExample()
    ensures FormatFileSize(2048) == "2.0 KB"
  {
    Decimal.ToFixedWhole(2, 1024, 1);
    assert Decimal.Zeros(1) == "0";
  }

  lemma FormatFileSizeMBExample()
    ensures FormatFileSize(1048576) == "1.0 MB"
  {
    Decimal.ToFixedWhole(1, 1048576, 1);
    assert Decimal.Zeros(1) == "0";
  }

  lemma FormatFileSizeGBExample()
    ensures FormatFileSize(1073741824) == "1.00 GB"
  {
    Decimal.ToFixedWhole(1, 1073741824, 2);
    assert Decimal.Zeros(2) == "00";
  }

  /** One byte short of 1 MiB still counts as KB but rounds to `1024.0 KB`. */
  lemma FormatFileSizeJustBelowMiB()
    ensures FormatFileSize(1048575) == "1024.0 KB"
  {
    assert Decimal.RoundHalfUp(1048575 * 10, 1024) == 10240;
    Decimal.FixedPointOfMultiple(1024, 1);
    assert Decimal.NatToString(1024) == "1024";
    assert Decimal.Zeros(1) == "0";
  }
}
