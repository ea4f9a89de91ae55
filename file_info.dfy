/**
 * The per-file validation predicates of the upload area and the texts built
 * from its configuration: the size limit, the case-insensitive extension
 * suffix test, their conjunction, the aggregated error message, and the two
 * human-readable descriptions of the limits.
 *
 * JavaScript truthiness is explicit here: a `maxFileSize` of `undefined`
 * (`None`) or `0` means "no limit", while any extension list, even an empty
 * one, is truthy and is applied.
 */
module FileInfo {
  import opened Wrappers
  import opened Text
  import Decimal
  import Units

  /** A browser `File` as far as validation reads it. */
  datatype File = File(name: string, size: nat)

  /** The size limit is in force: `maxFileSize` is truthy. */
  predicate LimitSet(maxFileSize: Option<int>) {
    maxFileSize.Some? && maxFileSize.value != 0
  }

  /** `isValidFileSize`: false only when a limit is in force and the size exceeds it. */
  predicate IsValidFileSize(file: File, maxFileSize: Option<int>) {
    !(LimitSet(maxFileSize) && file.size > maxFileSize.value)
  }

  /** The name, lower-cased, ends with `.` followed by the lower-cased extension. */
  predicate MatchesExtension(name: string, ext: string) {
    EndsWith(ToLower(name), "." + ToLower(ext))
  }

  /** `extensions.some(ext => MatchesExtension(name, ext))`, scanning left to right. */
  predicate SomeExtensionMatches(name: string, extensions: seq<string>) {
    if |extensions| == 0 then false
    else MatchesExtension(name, extensions[0]) || SomeExtensionMatches(name, extensions[1..])
  }

  /** `hasValidFileExtension`: false only when a list is given and no entry matches. */
  predicate HasValidFileExtension(file: File, fileExtensions: Option<seq<string>>) {
    !(fileExtensions.Some? && !SomeExtensionMatches(file.name, fileExtensions.value))
  }

  /** `hasValidFileSizeAndExtension`. */
  predicate HasValidFileSizeAndExtension(file: File, maxFileSize: Option<int>, fileExtensions: Option<seq<string>>) {
    IsValidFileSize(file, maxFileSize) && HasValidFileExtension(file, fileExtensions)
  }

  // ---------------------------------------------------------------------------
  // What the predicates mean

  /**
   * A file fails the size check exactly when a nonzero limit is set and the
   * size is strictly above it: a file of exactly the limit passes, and without
   * a limit (undefined or 0) every size passes.
   */
  lemma SizeCheckIff(file: File, maxFileSize: Option<int>)
    ensures !IsValidFileSize(file, maxFileSize) <==>
              maxFileSize.Some? && maxFileSize.value != 0 && file.size > maxFileSize.value
    ensures maxFileSize == Some(file.size as int) ==> IsValidFileSize(file, maxFileSize)
    ensures maxFileSize == None || maxFileSize == Some(0) ==> IsValidFileSize(file, maxFileSize)
  {
  }

  /** The left-to-right scan answers the existential question. */
  lemma {:induction false} SomeExtensionMatchesIff(name: string, extensions: seq<string>)
    ensures SomeExtensionMatches(name, extensions) <==>
              exists i :: 0 <= i < |extensions| && MatchesExtension(name, extensions[i])
    decreases |extensions|
  {
    if |extensions| > 0 {
      SomeExtensionMatchesIff(name, extensions[1..]);
      if exists i :: 1 <= i < |extensions| && MatchesExtension(name, extensions[i]) {
        var i :| 1 <= i < |extensions| && MatchesExtension(name, extensions[i]);
        assert MatchesExtension(name, extensions[1..][i - 1]);
      }
    }
  }

  /**
   * Without an extension list every name passes; with one, a name passes iff
   * its lower-cased form ends with `.` plus some listed extension, lower-cased.
   * So an empty list rejects every file.
   */
  lemma ExtensionCheckIff(file: File, fileExtensions: Option<seq<string>>)
    ensures fileExtensions.None? ==> HasValidFileExtension(file, fileExtensions)
    ensures fileExtensions.Some? ==>
              (HasValidFileExtension(file, fileExtensions) <==>
               exists i :: 0 <= i < |fileExtensions.value| &&
                 EndsWith(ToLower(file.name), "." + ToLower(fileExtensions.value[i])))
    ensures fileExtensions == Some([]) ==> !HasValidFileExtension(file, fileExtensions)
  {
    if fileExtensions.Some? {
      SomeExtensionMatchesIff(file.name, fileExtensions.value);
    }
  }

  /**
   * Letter case plays no part: upper-casing the file name and every allowed
   * extension leaves the verdict unchanged.
   */
  lemma ExtensionCheckIgnoresCase(file: File, fileExtensions: seq<string>)
    ensures HasValidFileExtension(File(ToUpper(file.name), file.size), Some(Map(ToUpper, fileExtensions)))
        == HasValidFileExtension(file, Some(fileExtensions))
  {
    var upper := Map(ToUpper, fileExtensions);
    LowerOfUpper(file.name);
    forall i | 0 <= i < |fileExtensions|
      ensures MatchesExtension(ToUpper(file.name), upper[i]) == MatchesExtension(file.name, fileExtensions[i])
    {
      LowerOfUpper(fileExtensions[i]);
      ToLowerAppend(".", upper[i]);
      ToLowerAppend(".", fileExtensions[i]);
    }
    SomeExtensionMatchesIff(ToUpper(file.name), upper);
    SomeExtensionMatchesIff(file.name, fileExtensions);
  }

  /** A name made of a base, a dot and an extension matches that extension, whatever the case. */
  lemma NameWithExtensionMatches(base: string, ext: string)
    ensures MatchesExtension(base + "." + ext, ext)
  {
    ToLowerAppend(base + ".", ext);
    ToLowerAppend(base, ".");
    assert ToLower(".") == ".";
    var lb, le := ToLower(base), ToLower(ext);
    assert (lb + ".") + le == lb + ("." + le);
    EndsWithAppend(lb, "." + le);
  }

  /** A name whose last letter differs, ignoring case, from the extension's last letter does not match it. */
  lemma LastLetterMismatch(name: string, ext: string)
    requires |name| > 0 && |ext| > 0
    requires LowerChar(name[|name| - 1]) != LowerChar(ext[|ext| - 1])
    ensures !MatchesExtension(name, ext)
  {
    CaseAt(name, |name| - 1);
    CaseAt(ext, |ext| - 1);
    var suffix := "." + ToLower(ext);
    assert suffix[|suffix| - 1] == ToLower(ext)[|ext| - 1];
    EndsWithLastChar(ToLower(name), suffix);
  }

  /** `example.jpg` passes the list `jpg, png`, as the project's tests pin it. */
  lemma JpgExampleAccepted()
    ensures HasValidFileExtension(File("example.jpg", 7), Some(["jpg", "png"]))
    ensures HasValidFileSizeAndExtension(File("example.jpg", 7), Some(1000), Some(["jpg"]))
    ensures !HasValidFileSizeAndExtension(File("example.jpg", 7), Some(1), Some(["jpg"]))
  {
    assert "example.jpg" == "example" + "." + "jpg";
    NameWithExtensionMatches("example", "jpg");
  }

  /** `example.gif` fails the list `jpg, png`, as the project's tests pin it. */
  lemma GifExampleRejected()
    ensures !HasValidFileExtension(File("example.gif", 7), Some(["jpg", "png"]))
  {
    LastLetterMismatch("example.gif", "jpg");
    LastLetterMismatch("example.gif", "png");
    SomeOfTwo("example.gif", "jpg", "png");
  }

  /**
   * The combined check passes exactly when the size is not above a limit in
   * force and, when a list is given, some listed extension matches the name.
   */
  lemma CombinedCheckIff(file: File, maxFileSize: Option<int>, fileExtensions: Option<seq<string>>)
    ensures HasValidFileSizeAndExtension(file, maxFileSize, fileExtensions) <==>
              && !(maxFileSize.Some? && maxFileSize.value != 0 && file.size > maxFileSize.value)
              && (fileExtensions.Some? ==>
                    exists i :: 0 <= i < |fileExtensions.value| && MatchesExtension(file.name, fileExtensions.value[i]))
  {
    if fileExtensions.Some? {
      SomeExtensionMatchesIff(file.name, fileExtensions.value);
    }
  }

  /** `example.gif` is within the limit 1000 but fails the list `jpg`, so it fails the combined check. */
  lemma GifExampleFailsCombinedCheck()
    ensures !HasValidFileSizeAndExtension(File("example.gif", 7), Some(1000), Some(["jpg"]))
  {
    LastLetterMismatch("example.gif", "jpg");
    SomeOfOne("example.gif", "jpg");
  }

  lemma SomeOfOne(name: string, a: string)
    ensures SomeExtensionMatches(name, [a]) == MatchesExtension(name, a)
  {
    assert [a][1..] == [];
  }

  lemma SomeOfTwo(name: string, a: string, b: string)
    ensures SomeExtensionMatches(name, [a, b]) == (MatchesExtension(name, a) || MatchesExtension(name, b))
  {
    assert [a, b][1..] == [b];
    SomeOfOne(name, b);
  }

  // ---------------------------------------------------------------------------
  // The aggregated error message

  function TooLargeLine(file: File): string {
    "File " + file.name + " is too large."
  }

  function InvalidLine(file: File): string {
    "File " + file.name + " is invalid."
  }

  /** The files failing the size check, in input order. */
  function LargeFiles(files: seq<File>, maxFileSize: Option<int>): seq<File> {
    Filter(files, f => !IsValidFileSize(f, maxFileSize))
  }

  /** The files failing the extension check, in input order. */
  function InvalidFiles(files: seq<File>, fileExtensions: Option<seq<string>>): seq<File> {
    Filter(files, f => !HasValidFileExtension(f, fileExtensions))
  }

  /** The message lines: every "too large" line, then every "invalid" line. */
  function ErrorLines(files: seq<File>, maxFileSize: Option<int>, fileExtensions: Option<seq<string>>): seq<string> {
    Map(TooLargeLine, LargeFiles(files, maxFileSize)) + Map(InvalidLine, InvalidFiles(files, fileExtensions))
  }

  /** `getFilesErrorMessage`: the lines joined by newlines. */
  function GetFilesErrorMessage(files: seq<File>, maxFileSize: Option<int>, fileExtensions: Option<seq<string>>): string {
    Join(ErrorLines(files, maxFileSize, fileExtensions), "\n")
  }

  /**
   * The lines are one "too large" line per oversize file and then one
   * "invalid" line per bad-extension file, each group in input order, so a
   * file failing both checks appears once in each group.
   */
  lemma ErrorLinesShape(files: seq<File>, maxFileSize: Option<int>, fileExtensions: Option<seq<string>>)
    ensures var lines := ErrorLines(files, maxFileSize, fileExtensions);
            var large := LargeFiles(files, maxFileSize);
            var invalid := InvalidFiles(files, fileExtensions);
            && |lines| == |large| + |invalid|
            && (forall i :: 0 <= i < |large| ==> lines[i] == TooLargeLine(large[i]))
            && (forall i :: 0 <= i < |invalid| ==> lines[|large| + i] == InvalidLine(invalid[i]))
            && IsSubsequence(large, files) && IsSubsequence(invalid, files)
            && (forall f :: f in large <==> f in files && !IsValidFileSize(f, maxFileSize))
            && (forall f :: f in invalid <==> f in files && !HasValidFileExtension(f, fileExtensions))
            && |large| == CountIf(files, f => !IsValidFileSize(f, maxFileSize))
            && |invalid| == CountIf(files, f => !HasValidFileExtension(f, fileExtensions))
  {
    LinesLayout(LargeFiles(files, maxFileSize), InvalidFiles(files, fileExtensions));
    FilterKeepsExactly(files, f => !IsValidFileSize(f, maxFileSize));
    FilterKeepsExactly(files, f => !HasValidFileExtension(f, fileExtensions));
  }

  lemma LinesLayout(large: seq<File>, invalid: seq<File>)
    ensures var lines := Map(TooLargeLine, large) + Map(InvalidLine, invalid);
            && |lines| == |large| + |invalid|
            && (forall i :: 0 <= i < |large| ==> lines[i] == TooLargeLine(large[i]))
            && (forall i :: 0 <= i < |invalid| ==> lines[|large| + i] == InvalidLine(invalid[i]))
  {
  }

  /** The message is empty exactly when every file passes both checks. */
  lemma ErrorMessageEmptyIff(files: seq<File>, maxFileSize: Option<int>, fileExtensions: Option<seq<string>>)
    ensures GetFilesErrorMessage(files, maxFileSize, fileExtensions) == "" <==>
              forall i :: 0 <= i < |files| ==> HasValidFileSizeAndExtension(files[i], maxFileSize, fileExtensions)
  {
    var lines := ErrorLines(files, maxFileSize, fileExtensions);
    assert forall i :: 0 <= i < |lines| ==> lines[i] != "" by {
      forall i | 0 <= i < |lines| ensures lines[i] != "" {
        assert lines[i][0] == 'F';
      }
    }
    JoinEmptyIff(lines, "\n");
    FilterNonEmptyIff(files, f => !IsValidFileSize(f, maxFileSize));
    FilterNonEmptyIff(files, f => !HasValidFileExtension(f, fileExtensions));
  }

  /**
   * When no file name contains a newline, splitting the message at newlines
   * gives back its lines, so it has one line per oversize position plus one
   * per bad-extension position.
   */
  lemma ErrorMessageLines(files: seq<File>, maxFileSize: Option<int>, fileExtensions: Option<seq<string>>)
    requires forall i :: 0 <= i < |files| ==> '\n' !in files[i].name
    requires !forall i :: 0 <= i < |files| ==> HasValidFileSizeAndExtension(files[i], maxFileSize, fileExtensions)
    ensures Split(GetFilesErrorMessage(files, maxFileSize, fileExtensions), '\n')
         == ErrorLines(files, maxFileSize, fileExtensions)
    ensures |Split(GetFilesErrorMessage(files, maxFileSize, fileExtensions), '\n')|
         == CountIf(files, f => !IsValidFileSize(f, maxFileSize))
          + CountIf(files, f => !HasValidFileExtension(f, fileExtensions))
  {
    var lines := ErrorLines(files, maxFileSize, fileExtensions);
    ErrorLinesShape(files, maxFileSize, fileExtensions);
    ErrorMessageEmptyIff(files, maxFileSize, fileExtensions);
    ErrorLinesWithoutNewline(files, maxFileSize, fileExtensions);
    JoinThenSplit(lines, '\n');
  }

  lemma LinesWithoutNewline(file: File)
    requires '\n' !in file.name
    ensures '\n' !in TooLargeLine(file) && '\n' !in InvalidLine(file)
  {
    assert '\n' !in "File ";
    assert '\n' !in " is too large.";
    assert '\n' !in " is invalid.";
  }

  lemma ErrorLinesWithoutNewline(files: seq<File>, maxFileSize: Option<int>, fileExtensions: Option<seq<string>>)
    requires forall i :: 0 <= i < |files| ==> '\n' !in files[i].name
    ensures forall i :: 0 <= i < |ErrorLines(files, maxFileSize, fileExtensions)| ==>
              '\n' !in ErrorLines(files, maxFileSize, fileExtensions)[i]
  {
    var large := LargeFiles(files, maxFileSize);
    var invalid := InvalidFiles(files, fileExtensions);
    var lines := ErrorLines(files, maxFileSize, fileExtensions);
    ErrorLinesShape(files, maxFileSize, fileExtensions);
    forall i | 0 <= i < |lines| ensures '\n' !in lines[i] {
      var f := if i < |large| then large[i] else invalid[i - |large|];
      assert f in files;
      var k :| 0 <= k < |files| && files[k] == f;
      LinesWithoutNewline(f);
    }
  }

  /**
   * A batch of one oversize file with an allowed extension followed by one
   * small file with a disallowed extension yields one "too large" line naming
   * the first, then one "invalid" line naming the second.
   */
  lemma ErrorLinesTwoFiles(big: File, odd: File, maxFileSize: Option<int>, fileExtensions: Option<seq<string>>)
    requires !IsValidFileSize(big, maxFileSize) && HasValidFileExtension(big, fileExtensions)
    requires IsValidFileSize(odd, maxFileSize) && !HasValidFileExtension(odd, fileExtensions)
    ensures ErrorLines([big, odd], maxFileSize, fileExtensions)
         == ["File " + big.name + " is too large.", "File " + odd.name + " is invalid."]
  {
    var files := [big, odd];
    assert files[1..] == [odd] && [odd][1..] == [];
    var tooBig := (f: File) => !IsValidFileSize(f, maxFileSize);
    var badExt := (f: File) => !HasValidFileExtension(f, fileExtensions);
    assert Filter([odd], tooBig) == [];
    assert Filter(files, tooBig) == [big];
    assert Filter([odd], badExt) == [odd];
    assert Filter(files, badExt) == [odd];
  }

  // ---------------------------------------------------------------------------
  // Descriptions of the limits

  /** `formatFileExtensions`: `.ext` for each entry joined by `, `, or a fixed text without a list. */
  function FormatFileExtensions(fileExtensions: Option<seq<string>>): string {
    if fileExtensions.None? then "Any file type."
    else Join(Map(DotPrefixed, fileExtensions.value), ", ")
  }

  function DotPrefixed(ext: string): string {
    "." + ext
  }

  /** Each part after the first, preceded by `prefix`. */
  function PrefixTail(parts: seq<string>, prefix: string): (r: seq<string>)
    ensures |r| == |parts|
  {
    seq(|parts|, i requires 0 <= i < |parts| => if i == 0 then parts[i] else prefix + parts[i])
  }

  /** A two-character separator is a one-character one with the second character moved into the parts. */
  lemma {:induction false} JoinTwoCharSeparator(parts: seq<string>, a: char, b: char)
    ensures Join(parts, [a, b]) == Join(PrefixTail(parts, [b]), [a])
    decreases |parts|
  {
    if |parts| >= 2 {
      var tail := parts[1..];
      JoinTwoCharSeparator(tail, a, b);
      var pt := PrefixTail(parts, [b]);
      assert pt[1..] == [[b] + tail[0]] + PrefixTail(tail, [b])[1..];
      if |tail| == 1 {
        assert Join(pt, [a]) == parts[0] + [a] + ([b] + tail[0]);
      } else {
        var rest := PrefixTail(tail, [b]);
        assert Join(rest, [a]) == tail[0] + [a] + Join(rest[1..], [a]);
        assert Join(pt[1..], [a]) == ([b] + tail[0]) + [a] + Join(rest[1..], [a]);
      }
    }
  }

  /**
   * Without a list the text is `Any file type.`; an empty list gives the empty
   * text; otherwise, when no extension contains a comma, the text splits at
   * commas into `.ext` for each entry in order, every one after the first
   * preceded by the space of the `, ` separator. Whatever the entries, the
   * text is those pieces joined by commas.
   */
  lemma FormatFileExtensionsListing(fileExtensions: Option<seq<string>>)
    ensures fileExtensions.None? ==> FormatFileExtensions(fileExtensions) == "Any file type."
    ensures fileExtensions == Some([]) ==> FormatFileExtensions(fileExtensions) == ""
    ensures fileExtensions.Some? && |fileExtensions.value| > 0 ==>
              FormatFileExtensions(fileExtensions) == Join(ListedPieces(fileExtensions.value), ",")
    ensures fileExtensions.Some? && |fileExtensions.value| > 0 &&
            (forall i :: 0 <= i < |fileExtensions.value| ==> ',' !in fileExtensions.value[i]) ==>
              var exts := fileExtensions.value;
              var pieces := Split(FormatFileExtensions(fileExtensions), ',');
              |pieces| == |exts| &&
              forall i :: 0 <= i < |exts| ==> pieces[i] == ListedPiece(exts, i)
  {
    if fileExtensions.Some? && |fileExtensions.value| > 0 {
      ListedJoin(fileExtensions.value);
      if forall i :: 0 <= i < |fileExtensions.value| ==> ',' !in fileExtensions.value[i] {
        ExtensionListPieces(fileExtensions.value);
      }
    }
  }

  /** How entry `i` of a non-empty list appears between the commas of the description. */
  function ListedPiece(exts: seq<string>, i: nat): string
    requires i < |exts|
  {
    (if i == 0 then "" else " ") + "." + exts[i]
  }

  function ListedPieces(exts: seq<string>): (r: seq<string>)
    ensures |r| == |exts|
  {
    seq(|exts|, i requires 0 <= i < |exts| => ListedPiece(exts, i))
  }

  /** For any non-empty list, the description is the listed pieces joined by commas. */
  lemma ListedJoin(exts: seq<string>)
    requires |exts| > 0
    ensures FormatFileExtensions(Some(exts)) == Join(ListedPieces(exts), ",")
  {
    var dotted := Map(DotPrefixed, exts);
    JoinTwoCharSeparator(dotted, ',', ' ');
    var parts := PrefixTail(dotted, " ");
    forall i | 0 <= i < |parts|
      ensures parts[i] == ListedPieces(exts)[i]
    {
      ListedPieceAt(exts, i);
    }
    assert parts == ListedPieces(exts);
  }

  lemma ExtensionListPieces(exts: seq<string>)
    requires |exts| > 0
    requires forall i :: 0 <= i < |exts| ==> ',' !in exts[i]
    ensures Split(FormatFileExtensions(Some(exts)), ',') == ListedPieces(exts)
  {
    ListedJoin(exts);
    var parts := ListedPieces(exts);
    forall i | 0 <= i < |parts|
      ensures ',' !in parts[i]
    {
      ListedPieceFree(exts, i);
    }
    JoinThenSplit(parts, ',');
  }

  lemma ListedPieceAt(exts: seq<string>, i: nat)
    requires i < |exts|
    ensures PrefixTail(Map(DotPrefixed, exts), " ")[i] == ListedPiece(exts, i)
  {
  }

  lemma ListedPieceFree(exts: seq<string>, i: nat)
    requires i < |exts| && ',' !in exts[i]
    ensures ',' !in ListedPiece(exts, i)
  {
    var lead := if i == 0 then "" else " ";
    assert ListedPiece(exts, i) == (lead + ".") + exts[i];
    assert ',' !in lead + ".";
  }

  lemma FormatFileExtensionsExample()
    ensures FormatFileExtensions(Some(["jpg", "png"])) == ".jpg, .png"
  {
    var dotted := Map(DotPrefixed, ["jpg", "png"]);
    assert |dotted| == 2 && dotted[0] == ".jpg" && dotted[1] == ".png";
    assert dotted == [".jpg", ".png"];
    assert dotted[1..] == [".png"];
    assert Join(dotted, ", ") == ".jpg" + ", " + ".png";
  }

  /**
   * `formatMaxFileSize`: `No limit.` without a limit (undefined or 0),
   * otherwise the limit in MiB with two decimals, rounded to nearest.
   */
  function FormatMaxFileSize(maxFileSize: Option<int>): string {
    if !LimitSet(maxFileSize) then "No limit."
    else
      var m := maxFileSize.value;
      var magnitude: nat := if m < 0 then -m else m;
      (if m < 0 then "-" else "") + Decimal.ToFixed(magnitude, Units.MiB, 2) + " MB"
  }

  /**
   * Without a limit the text is `No limit.`; a limit of a whole number `k` of
   * MiB reads `k.00 MB`.
   */
  lemma FormatMaxFileSizeCases(maxFileSize: Option<int>, k: nat)
    ensures !LimitSet(maxFileSize) ==> FormatMaxFileSize(maxFileSize) == "No limit."
    ensures k > 0 && maxFileSize == Some(k * Units.MiB) ==>
              FormatMaxFileSize(maxFileSize) == Decimal.NatToString(k) + ".00 MB"
  {
    if k > 0 && maxFileSize == Some(k * Units.MiB) {
      Decimal.ToFixedWhole(k, Units.MiB, 2);
      assert Decimal.Zeros(2) == "00";
    }
  }

  /** One MiB reads `1.00 MB`, as the project's tests pin it. */
  lemma FormatMaxFileSizeExample()
    ensures FormatMaxFileSize(Some(1048576)) == "1.00 MB"
  {
    FormatMaxFileSizeCases(Some(1048576), 1);
  }
}
