# SDLC Automator: upload guards and two-file classification

SDLC Automator is a Streamlit page. It turns a business requirements
document (BRD) into a System Requirements Specification (SRS), an SRS into a
System Design Document (SDD), and an SRS together with an SDD into test
cases. Each conversion is a fixed list of CrewAI agents and tasks that call a
language model. The only decision logic of its own sits in front of those
pipelines. This model covers that logic:

- **Presence guards** (`pipelines.dfy`). `generate_srs`, `generate_sdd` and
  `generate_test_cases` each save their uploads to `temp/` and start their
  crew only when the required documents are present. Otherwise they show an
  error and return `None`. The three buttons also check presence before they
  call a generator. A guard's outcome is `Started(pipeline, saves)`, which
  lists the `save_uploaded_file` calls it makes, or `Rejected(message)`, which
  carries the exact error text and no saves.
- **Two-file classification** (`classification.dfy`). The "Generate Test
  Cases" button demands exactly two uploads. It then walks them in upload
  order, starting with both roles unbound. A file whose lower-cased name
  contains `"srs"` is bound to the SRS role. Otherwise, if the name contains
  `"sdd"`, it is bound to the SDD role. A later match overwrites an earlier
  one. The run starts only if both roles end up bound. `Step` is one loop
  pass, `BindAll` is the whole loop as a fold, and `ClassifyUploads` is the
  loop itself, proved equal to the fold. The lemmas characterise the fold
  without reference to the loop ("the last upload whose name mentions
  srs"). From that they derive the two-file rule, precedence, overwrite,
  distinctness and independence from upload order.
- **String primitives** (`text.dfy`). These are Python's `str.lower()` and
  the substring test `needle in hay`.

Assumptions:

- File names are ASCII. `Lower` maps only `A`-`Z` to `a`-`z`.
- An upload counts as present whenever it exists (`Some`). Streamlit's
  uploaded-file object is a `BytesIO`, which is always truthy, so an empty
  file still passes every guard.
- The classification loop rebinds the module-level name `uploaded_srs`. In
  the same script run, the SDD button's handler has already read that name
  by then, so the rebinding cannot hand a file to the wrong pipeline.

## Model

| member | source | states |
|---|---|---|
| Text.Lower | app.py:725-727 | `name.lower()` keeps the length and lower-cases each character in place |
| Text.Contains | app.py:725-727 | the substring scan behind `in`; its meaning is stated by `ContainsIff`; its own contract says an empty needle is always found and a match needs a needle no longer than the string |
| Text.ContainsIff | app.py:725-727 | the scan used for `"srs" in ...` is true exactly when the needle occurs at some position of the string |
| Text.ContainsLowerIgnoresCase | app.py:725-727 | testing the lower-cased name finds exactly the windows that spell the marker in any mix of cases |
| Classification.NamesSrsAnyCase | app.py:725 | a file is SRS-named exactly when three consecutive characters of its name spell "srs" in any case |
| Classification.NamesSddAnyCase | app.py:727 | a file is SDD-named exactly when three consecutive characters of its name spell "sdd" in any case |
| Classification.Classify | app.py:720-748 | the outcome is the "exactly two files" error exactly when the upload count is not two |
| Classification.ClassifyUploads | app.py:720-748 | the handler's count check, its loop from `None`/`None` and its both-bound check compute the fold-based classification |
| Classification.Step | app.py:725-728 | one loop pass changes at most one role; a changed SRS role now holds the file and the name mentions "srs"; a changed SDD role holds the file and the name mentions "sdd" but not "srs" |
| Classification.BindAll | app.py:722-728 | the loop as a fold from both roles unbound: any bound role holds one of the uploads with the right marker; `BindAllSrs` and `BindAllSdd` say which one |
| Classification.BindAllSrs | app.py:722-726 | after the loop, SRS is unbound exactly when no name mentions "srs", and otherwise holds the last upload whose name does |
| Classification.BindAllSdd | app.py:722-728 | after the loop, SDD is unbound exactly when no name mentions "sdd" without "srs", and otherwise holds the last such upload |
| Classification.BindPair | app.py:724-728 | the loop over two uploads applies the per-file step to the first upload, then to the second |
| Classification.SrsTakesPrecedence | app.py:724-731 | a name mentioning both "srs" and "sdd" is bound to SRS, so paired with an SDD-only name it is the SRS file in either upload order |
| Classification.BothSrsNotReady | app.py:724-730 | with two SRS-named uploads, the second overwrites the first, SDD stays unbound and the outcome is "not one of each" |
| Classification.ClassifyPair | app.py:724-731 | two uploads are ready if and only if one mentions "srs" and the other mentions "sdd" but not "srs"; the roles then go to those files, and the two files differ |
| Classification.ClassifyOrderIndependent | app.py:724-731 | swapping the two uploads never changes the outcome |
| Classification.ClassifyReadySound | app.py:724-731 | when ready, both bound files are among the uploads, the SRS file mentions "srs", the SDD file mentions "sdd" but not "srs", and they differ |
| Classification.BindAllIgnoresCase | app.py:725-727 | uploads whose names lower-case alike bind the same roles |
| Classification.ClassifyIgnoresCase | app.py:725-727 | uploads whose names lower-case alike get the same outcome kind |
| Pipelines.GenerateSrs | app.py:48-236 | `generate_srs` saves the BRD as brd.txt and starts the BRD-to-SRS crew exactly when a BRD is present; otherwise it shows "Please upload a file to proceed." and saves nothing |
| Pipelines.GenerateSdd | app.py:243-517 | `generate_sdd` saves the SRS as srs.txt and starts the SRS-to-SDD crew exactly when an SRS is present; otherwise it shows the same error and saves nothing |
| Pipelines.GenerateTestCases | app.py:523-668 | `generate_test_cases` saves srs.txt and sdd.txt and starts its crew exactly when both documents are present; otherwise it shows "Please upload both SRS and SDD documents to proceed." and saves neither |
| Pipelines.HandleGenerateSrs | app.py:671-692 | the "Generate SRS" button's presence check in front of `generate_srs`; its contract is `HandleGenerateSrsGuard` |
| Pipelines.HandleGenerateSdd | app.py:694-715 | the "Generate SDD" button's presence check in front of `generate_sdd`; its contract is `HandleGenerateSddGuard` |
| Pipelines.HandleGenerateTestCases | app.py:717-750 | the "Generate Test Cases" button: classification, then `generate_test_cases`; its contract is `HandleGenerateTestCasesGuard` with the `HandleGenerateTestCases...` lemmas below |
| Pipelines.HandleGenerateSrsGuard | app.py:674-690 | the SRS button starts the pipeline exactly when a BRD is uploaded and saves only that file; without a BRD it shows "Please upload a BRD document to proceed."; the generator's own error never appears |
| Pipelines.HandleGenerateSddGuard | app.py:697-713 | the SDD button starts the pipeline exactly when an SRS is uploaded and saves only that file; without one it shows "Please upload an SRS document to proceed."; the generator's own error never appears |
| Pipelines.HandleGenerateTestCasesGuard | app.py:720-748 | the test-case button starts the pipeline exactly when both roles are bound; it then saves two distinct uploads, the SRS-named one as srs.txt and the SDD-named one as sdd.txt; two uploads that leave a role unbound get "Please ensure you upload one SRS and one SDD document."; `generate_test_cases`'s own error never appears |
| Pipelines.HandleGenerateTestCasesCount | app.py:747-748 | any upload count other than two, including none, is refused with "Please upload exactly two files (SRS and SDD) to proceed." |
| Pipelines.HandleGenerateTestCasesBothSrs | app.py:745-746 | two SRS-named uploads, in either order, are refused with "Please ensure you upload one SRS and one SDD document." |
| Pipelines.HandleGenerateTestCasesOrder | app.py:720-746 | the button's decision does not depend on the upload order |
| Pipelines.HandleGenerateTestCasesReady | app.py:720-731 | one SRS-named and one SDD-only upload start the pipeline in either order, each saved under its role's file name |
| Pipelines.RequirementsSrsName | app.py:725 | "requirements_srs.txt" is bound to the SRS role |
| Pipelines.DesignSddName | app.py:725-728 | "design_sdd.txt" is bound to the SDD role and not to SRS |
| Pipelines.RequirementsAndDesignUploads | app.py:720-731 | uploading "requirements_srs.txt" and "design_sdd.txt", in either order, starts the test-case pipeline with the first as SRS and the second as SDD |

## Left out

- The CrewAI agents, tasks, crews and `crew.kickoff()` (app.py:51-233, 246-514, 528-665). They are calls into a foreign library and a language model whose behaviour is opaque. The model stops at the point where a guard starts the crew.
- The `if result:` checks after each generator (app.py:676, 699, 732) depend on the crew's opaque return value. The read-back and display of srs1.md, sdd.md and testcases.md (app.py:677-688, 700-711, 733-744) are filesystem I/O and UI.
- `save_uploaded_file` (app.py:37-44) is filesystem I/O. A `Save` value records only that a save happens, which upload it writes and under which file name in `temp/`.
- The `except Exception` handlers (app.py:691-692, 714-715, 749-750) turn any exception raised inside each button's `try` block into an "An error occurred" message. That covers failures of `save_uploaded_file`, of building and running the crew, and of reading back srs1.md, sdd.md or testcases.md (a missing output file raises there). The model has no exceptions: a `Started` outcome means only that the guard let the run begin, not that it finished.
- The Streamlit page layout, widgets, spinners and buttons (app.py:10-35) are UI, and `load_dotenv` (app.py:8) is configuration I/O. The three button handlers are modelled as separate functions of their uploads.
- Python's full Unicode `str.lower()` is not modelled. Names are treated as ASCII, and only `A`-`Z` are lower-cased.
