/**
 * The batch decision of the upload area (`processFiles`): given the files of
 * one drop or file-picker selection and the area's configuration, which files
 * are handed to `onFileChange` and which alert, if any, is raised. The two
 * effects are returned as values; when both occur, `onFileChange` runs first.
 */
module FileUpload {
  import opened Wrappers
  import opened Text
  import opened FileInfo

  /** The upload area's props: `acceptsMultiple` defaults to false. */
  datatype UploadConfig = UploadConfig(
    acceptsMultiple: bool,
    maxFileSize: Option<int>,
    fileExtensions: Option<seq<string>>)

  /**
   * The observable effects of one call: the argument `onFileChange` was
   * called with (`None` when it was not called) and the text of the alert
   * (`None` when no alert was raised).
   */
  datatype Effects = Effects(changed: Option<seq<File>>, alert: Option<string>)

  const OnlyOneFileMessage := "Only one file can be uploaded at a time."

  /** Some constraint is configured: the size limit is truthy or an extension list is given. */
  predicate Constrained(config: UploadConfig) {
    LimitSet(config.maxFileSize) || config.fileExtensions.Some?
  }

  predicate IsAccepted(config: UploadConfig, file: File) {
    HasValidFileSizeAndExtension(file, config.maxFileSize, config.fileExtensions)
  }

  /** The files that pass both checks, in input order. */
  function ValidFiles(config: UploadConfig, files: seq<File>): seq<File> {
    Filter(files, f => IsAccepted(config, f))
  }

  /**
   * `processFiles`. Without constraints the batch is forwarded untouched;
   * otherwise a batch of several files for a single-file area is refused with
   * a fixed alert; otherwise the valid files are forwarded when there are any
   * (one entry per passing position, so equal files are all kept),
   * and the aggregated error message over the whole batch is raised when some
   * file was filtered out.
   */
  function ProcessFiles(config: UploadConfig, files: seq<File>): (r: Effects)
    ensures !Constrained(config) ==> r == Effects(Some(files), None)
    ensures Constrained(config) && !config.acceptsMultiple && |files| > 1 ==>
              r == Effects(None, Some(OnlyOneFileMessage))
    ensures r.changed.Some? ==> IsSubsequence(r.changed.value, files)
    ensures Constrained(config) && r.changed.Some? ==>
              forall f :: f in r.changed.value <==> f in files && IsAccepted(config, f)
    ensures Constrained(config) && r.changed.Some? ==>
              |r.changed.value| == CountIf(files, f => IsAccepted(config, f))
    ensures Constrained(config) && (config.acceptsMultiple || |files| <= 1) ==>
              && (r.changed.Some? <==> exists i :: 0 <= i < |files| && IsAccepted(config, files[i]))
              && (r.alert.Some? <==> exists i :: 0 <= i < |files| && !IsAccepted(config, files[i]))
              && (r.alert.Some? ==>
                    r.alert.value == GetFilesErrorMessage(files, config.maxFileSize, config.fileExtensions))
  {
    if !LimitSet(config.maxFileSize) && config.fileExtensions.None? then
      FilterKeepsExactly(files, f => true);
      SubsequenceOfItself(files);
      Effects(Some(files), None)
    else if !config.acceptsMultiple && |files| > 1 then
      Effects(None, Some(OnlyOneFileMessage))
    else
      var valid := ValidFiles(config, files);
      FilterKeepsExactly(files, f => IsAccepted(config, f));
      FilterNonEmptyIff(files, f => IsAccepted(config, f));
      FilterKeepsAllIff(files, f => IsAccepted(config, f));
      Effects(
        if |valid| > 0 then Some(valid) else None,
        if |valid| != |files| then Some(GetFilesErrorMessage(files, config.maxFileSize, config.fileExtensions)) else None)
  }

  lemma {:induction false} SubsequenceOfItself<T>(s: seq<T>)
    ensures IsSubsequence(s, s)
    decreases |s|
  {
    if |s| > 0 {
      SubsequenceOfItself(s[1..]);
    }
  }

  /**
   * The no-constraint fast path is taken before the single-file check: a
   * multi-file batch is forwarded whole even when `acceptsMultiple` is false.
   */
  lemma FastPathBeforeSingleFileCheck(files: seq<File>)
    requires |files| > 1
    ensures ProcessFiles(UploadConfig(false, None, None), files) == Effects(Some(files), None)
    ensures ProcessFiles(UploadConfig(false, Some(0), None), files) == Effects(Some(files), None)
  {
  }

  /**
   * Partial acceptance: with constraints, when at least one file passes and at
   * least one fails, both effects happen, and the alert lists every failure
   * of the whole batch.
   */
  lemma PartialAcceptance(config: UploadConfig, files: seq<File>, good: nat, bad: nat)
    requires Constrained(config) && (config.acceptsMultiple || |files| <= 1)
    requires good < |files| && IsAccepted(config, files[good])
    requires bad < |files| && !IsAccepted(config, files[bad])
    ensures var r := ProcessFiles(config, files);
            && r.changed.Some? && files[good] in r.changed.value && files[bad] !in r.changed.value
            && r.alert.Some? && r.alert.value != ""
  {
    var r := ProcessFiles(config, files);
    ErrorMessageEmptyIff(files, config.maxFileSize, config.fileExtensions);
    assert files[good] in files && files[bad] in files;
  }

  /** With constraints, an empty batch triggers neither effect. */
  lemma EmptyBatchWithConstraints(config: UploadConfig)
    requires Constrained(config)
    ensures ProcessFiles(config, []) == Effects(None, None)
  {
  }

  /**
   * A single-file area given one oversize file and one disallowed file gets
   * the fixed refusal, never the per-file message.
   */
  lemma SingleFileAreaRefusesPairs(maxFileSize: Option<int>, fileExtensions: Option<seq<string>>, a: File, b: File)
    requires LimitSet(maxFileSize) || fileExtensions.Some?
    ensures ProcessFiles(UploadConfig(false, maxFileSize, fileExtensions), [a, b]).changed.None?
    ensures ProcessFiles(UploadConfig(false, maxFileSize, fileExtensions), [a, b]).alert == Some(OnlyOneFileMessage)
  {
  }
}
