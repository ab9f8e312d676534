/** The input-presence guards of the three generators and of the three
    buttons that call them. A guard decides whether the inputs are saved
    and the pipeline runs, or whether an error is shown and nothing is
    written. What a pipeline then does (its agents, tasks and the language
    model behind them) is outside this model. */
module Pipelines {
  import opened Text
  import opened Classification

  /** The three generators. */
  datatype Pipeline = BrdToSrs | SrsToSdd | SrsSddToTestCases

  /** One call of `save_uploaded_file`: the upload written to `temp/<fileName>`. */
  datatype Save = Save(fileName: string, file: UploadedFile)

  /** A guard either saves its inputs and starts the pipeline, or shows an
      error and returns `None`; a rejection carries no saves, so nothing is
      written when the guard fails. */
  datatype Run =
    | Started(pipeline: Pipeline, saves: seq<Save>)
    | Rejected(message: string)

  const UploadAFile := "Please upload a file to proceed."
  const UploadBoth := "Please upload both SRS and SDD documents to proceed."
  const UploadBrd := "Please upload a BRD document to proceed."
  const UploadSrs := "Please upload an SRS document to proceed."
  const OneOfEach := "Please ensure you upload one SRS and one SDD document."
  const ExactlyTwo := "Please upload exactly two files (SRS and SDD) to proceed."

  /** `generate_srs(uploaded_brd)` up to the point where the crew starts. */
  function GenerateSrs(brd: Option<UploadedFile>): (r: Run)
    ensures r.Started? <==> brd.Some?
    ensures r.Started? ==> r.pipeline == BrdToSrs && r.saves == [Save("brd.txt", brd.value)]
    ensures r.Rejected? ==> r.message == UploadAFile
  {
    match brd
    case Some(f) => Started(BrdToSrs, [Save("brd.txt", f)])
    case None => Rejected(UploadAFile)
  }

  /** `generate_sdd(uploaded_srs)` up to the point where the crew starts. */
  function GenerateSdd(srs: Option<UploadedFile>): (r: Run)
    ensures r.Started? <==> srs.Some?
    ensures r.Started? ==> r.pipeline == SrsToSdd && r.saves == [Save("srs.txt", srs.value)]
    ensures r.Rejected? ==> r.message == UploadAFile
  {
    match srs
    case Some(f) => Started(SrsToSdd, [Save("srs.txt", f)])
    case None => Rejected(UploadAFile)
  }

  /** `generate_test_cases(uploaded_srs, uploaded_sdd)`: neither input is
      saved unless both are present. */
  function GenerateTestCases(srs: Option<UploadedFile>, sdd: Option<UploadedFile>): (r: Run)
    ensures r.Started? <==> srs.Some? && sdd.Some?
    ensures r.Started? ==> r.pipeline == SrsSddToTestCases &&
                           r.saves == [Save("srs.txt", srs.value), Save("sdd.txt", sdd.value)]
    ensures r.Rejected? ==> r.message == UploadBoth
  {
    if srs.Some? && sdd.Some? then
      Started(SrsSddToTestCases, [Save("srs.txt", srs.value), Save("sdd.txt", sdd.value)])
    else
      Rejected(UploadBoth)
  }

  /** The "Generate SRS" button: its own presence check, then `generate_srs`. */
  function HandleGenerateSrs(brd: Option<UploadedFile>): Run {
    if brd.Some? then GenerateSrs(brd) else Rejected(UploadBrd)
  }

  /** The "Generate SDD" button: its own presence check, then `generate_sdd`. */
  function HandleGenerateSdd(srs: Option<UploadedFile>): Run {
    if srs.Some? then GenerateSdd(srs) else Rejected(UploadSrs)
  }

  /** The "Generate Test Cases" button: the two-file classification, then
      `generate_test_cases` with the two bound roles. */
  function HandleGenerateTestCases(files: seq<UploadedFile>): Run {
    match Classify(files)
    case WrongCount => Rejected(ExactlyTwo)
    case NotOneOfEach => Rejected(OneOfEach)
    case Ready(srs, sdd) => GenerateTestCases(Some(srs), Some(sdd))
  }

  /** The SRS button starts its pipeline exactly when a BRD was uploaded,
      saving only that upload, and otherwise shows the button's own message;
      the generator's fallback message can never appear. */
  lemma HandleGenerateSrsGuard(brd: Option<UploadedFile>)
    ensures HandleGenerateSrs(brd).Started? <==> brd.Some?
    ensures brd.Some? ==> HandleGenerateSrs(brd) == Started(BrdToSrs, [Save("brd.txt", brd.value)])
    ensures brd.None? ==> HandleGenerateSrs(brd) == Rejected(UploadBrd)
    ensures HandleGenerateSrs(brd) != Rejected(UploadAFile)
  {
  }

  /** The SDD button starts its pipeline exactly when an SRS was uploaded,
      saving only that upload, and otherwise shows the button's own message;
      the generator's fallback message never appears. */
  lemma HandleGenerateSddGuard(srs: Option<UploadedFile>)
    ensures HandleGenerateSdd(srs).Started? <==> srs.Some?
    ensures srs.Some? ==> HandleGenerateSdd(srs) == Started(SrsToSdd, [Save("srs.txt", srs.value)])
    ensures srs.None? ==> HandleGenerateSdd(srs) == Rejected(UploadSrs)
    ensures HandleGenerateSdd(srs) != Rejected(UploadAFile)
  {
  }

  /** The test-case pipeline starts exactly when both roles were bound. It then
      saves two distinct uploads, the SRS-named one as srs.txt and the
      SDD-named one as sdd.txt; two uploads that leave a role unbound get the
      "one SRS and one SDD" message, and `generate_test_cases`'s own guard
      never fires. */
  lemma HandleGenerateTestCasesGuard(files: seq<UploadedFile>)
    ensures HandleGenerateTestCases(files).Started? <==> Classify(files).Ready?
    ensures |files| == 2 && !Classify(files).Ready? ==> HandleGenerateTestCases(files) == Rejected(OneOfEach)
    ensures HandleGenerateTestCases(files) != Rejected(UploadBoth)
    ensures HandleGenerateTestCases(files).Started? ==>
              var saves := HandleGenerateTestCases(files).saves;
              |saves| == 2 && saves[0].fileName == "srs.txt" && saves[1].fileName == "sdd.txt" &&
              saves[0].file in files && saves[1].file in files && saves[0].file != saves[1].file &&
              NamesSrs(saves[0].file) && NamesOnlySdd(saves[1].file)
  {
    if Classify(files).Ready? {
      ClassifyReadySound(files);
    }
  }

  /** Anything but two uploads is refused with the "exactly two files"
      message, before any file is classified or saved. */
  lemma HandleGenerateTestCasesCount(files: seq<UploadedFile>)
    requires |files| != 2
    ensures HandleGenerateTestCases(files) == Rejected(ExactlyTwo)
  {
  }

  /** Two uploads that name both markers, in either order, are refused with
      the "one SRS and one SDD" message. */
  lemma HandleGenerateTestCasesBothSrs(a: UploadedFile, b: UploadedFile)
    requires NamesSrs(a) && NamesSrs(b)
    ensures HandleGenerateTestCases([a, b]) == Rejected(OneOfEach)
    ensures HandleGenerateTestCases([b, a]) == Rejected(OneOfEach)
  {
    BothSrsNotReady(a, b);
    BothSrsNotReady(b, a);
  }

  /** The button's decision does not depend on the order of the two uploads. */
  lemma HandleGenerateTestCasesOrder(a: UploadedFile, b: UploadedFile)
    ensures HandleGenerateTestCases([a, b]) == HandleGenerateTestCases([b, a])
  {
    ClassifyOrderIndependent(a, b);
  }

  /** One SRS-named and one SDD-named upload start the pipeline, whichever
      order they come in, with each saved under its role's name. */
  lemma HandleGenerateTestCasesReady(srs: UploadedFile, sdd: UploadedFile)
    requires NamesSrs(srs) && NamesOnlySdd(sdd)
    ensures HandleGenerateTestCases([srs, sdd]) == HandleGenerateTestCases([sdd, srs]) ==
            Started(SrsSddToTestCases, [Save("srs.txt", srs), Save("sdd.txt", sdd)])
  {
    ClassifyPair(srs, sdd);
    ClassifyOrderIndependent(srs, sdd);
  }

  /** "requirements_srs.txt" mentions "srs". */
  lemma RequirementsSrsName(f: UploadedFile)
    requires f.name == "requirements_srs.txt"
    ensures NamesSrs(f)
  {
    assert f.name[13] == 's' && f.name[14] == 'r' && f.name[15] == 's';
    ContainsLowerAt(f.name, "srs", 13);
  }

  /** "design_sdd.txt" mentions "sdd" and, having no "r" in either case, not "srs". */
  lemma DesignSddName(f: UploadedFile)
    requires f.name == "design_sdd.txt"
    ensures NamesOnlySdd(f)
  {
    DesignSddNameNotSrs(f.name);
    assert f.name[7] == 's' && f.name[8] == 'd' && f.name[9] == 'd';
    ContainsLowerAt(f.name, "sdd", 7);
  }

  lemma DesignSddNameNotSrs(name: string)
    requires name == "design_sdd.txt"
    ensures !Contains(Lower(name), "srs")
  {
    NotContainsLowerLetter(name, "srs", 'r');
  }

  /** Uploading "requirements_srs.txt" and "design_sdd.txt", in either order,
      binds the first to SRS and the second to SDD and starts the pipeline. */
  lemma RequirementsAndDesignUploads(srs: UploadedFile, sdd: UploadedFile)
    requires srs.name == "requirements_srs.txt" && sdd.name == "design_sdd.txt"
    ensures HandleGenerateTestCases([srs, sdd]) == HandleGenerateTestCases([sdd, srs]) ==
            Started(SrsSddToTestCases, [Save("srs.txt", srs), Save("sdd.txt", sdd)])
  {
    RequirementsSrsName(srs);
    DesignSddName(sdd);
    HandleGenerateTestCasesReady(srs, sdd);
  }
}
