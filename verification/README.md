# New-report wizard: default file name and extension handling

A Dafny model of the computable part of BIRT's RCP new-report wizard
(`NewReportWizard`). The rest of that class is plumbing for the Eclipse
workbench, the SWT widgets and the report-model library. Two pieces are modelled:

- **Default name suggestion** (`getNewFileFullName`). It tries `base.rptdesign`,
  then `base_1.rptdesign`, `base_2.rptdesign`, and so on, and returns the first
  name that does not exist in the target directory. The directory is a finite
  `set<string>` of the names it holds, and `name in existing` stands for
  `new File(path, name).exists()`. The method is a `while` loop with the
  invariant "every skipped candidate is taken". Its termination measure is
  `|existing| - count`. The measure is justified by the fact that the
  candidates are pairwise distinct: the decimal rendering of the counter is
  injective, proved through a parser that inverts it.
- **Extension normalisation** (in `performFinish`). A typed file name that does
  not end with `.rptdesign` gets the extension appended. Otherwise the name is kept.

Modules:
- `Decimal` (`decimal.dfy`) renders and parses the counter.
- `Naming` (`naming.dfy`) holds the extension constant, `EndsWith`, the
  candidate names and their distinctness.
- `NewReportWizard` (`wizard.dfy`) holds the two operations and the lemmas about them.

## Model

| member | source | states |
|---|---|---|
| NewReportWizard.SuggestName | UI/org.eclipse.birt.report.designer.ui.rcp/src/org/eclipse/birt/report/designer/ui/internal/rcp/wizards/NewReportWizard.java:145-168 | The candidate names built at lines 149 and 160 are `Naming.Candidate`. The returned name is not in the directory and ends with `.rptdesign`. It is `base.rptdesign` when the counter is 0, and `base_k.rptdesign` for the final counter k ≥ 1 otherwise. Every earlier candidate exists, so the name is the least free candidate. If `base.rptdesign` is free it is returned with no `_0` suffix. The loop makes at most \|existing\| increments. |
| NewReportWizard.LeastFreeUnique | UI/org.eclipse.birt.report.designer.ui.rcp/src/org/eclipse/birt/report/designer/ui/internal/rcp/wizards/NewReportWizard.java:151-163 | At most one counter is the least free one, so the suggestion depends only on the base name and the directory contents. |
| NewReportWizard.LeastFreeBound | UI/org.eclipse.birt.report.designer.ui.rcp/src/org/eclipse/birt/report/designer/ui/internal/rcp/wizards/NewReportWizard.java:157-163 | The least free counter is at most the number of existing names. This bounds the search. |
| NewReportWizard.SuggestionAfterCreatingFirst | UI/org.eclipse.birt.report.designer.ui.rcp/src/org/eclipse/birt/report/designer/ui/internal/rcp/wizards/NewReportWizard.java:149-160 | In an empty directory the suggestion is `base.rptdesign`. Once that file exists, it becomes `base_1.rptdesign`. |
| Naming.CandidateEndsWithExtension | UI/org.eclipse.birt.report.designer.ui.rcp/src/org/eclipse/birt/report/designer/ui/internal/rcp/wizards/NewReportWizard.java:147-160 | Every name the search tries ends with the `.rptdesign` extension. |
| Naming.CandidateInjective | UI/org.eclipse.birt.report.designer.ui.rcp/src/org/eclipse/birt/report/designer/ui/internal/rcp/wizards/NewReportWizard.java:157-163 | Different counter values produce different candidate names. |
| Naming.CandidatesCount | UI/org.eclipse.birt.report.designer.ui.rcp/src/org/eclipse/birt/report/designer/ui/internal/rcp/wizards/NewReportWizard.java:157-163 | The first n candidates are n distinct names. |
| Naming.TakenBound | UI/org.eclipse.birt.report.designer.ui.rcp/src/org/eclipse/birt/report/designer/ui/internal/rcp/wizards/NewReportWizard.java:157-163 | If the first n candidates all exist, the directory holds at least n names. This justifies the loop's termination measure. |
| Decimal.NatToString | UI/org.eclipse.birt.report.designer.ui.rcp/src/org/eclipse/birt/report/designer/ui/internal/rcp/wizards/NewReportWizard.java:160 | The text of the counter is a non-empty string of decimal digits with no leading zero. It starts with '0' exactly for 0, and has one digit exactly below 10. |
| Decimal.ParseNatToString | UI/org.eclipse.birt.report.designer.ui.rcp/src/org/eclipse/birt/report/designer/ui/internal/rcp/wizards/NewReportWizard.java:160 | Parsing the counter's text gives back the counter. |
| Decimal.NatToStringParse | UI/org.eclipse.birt.report.designer.ui.rcp/src/org/eclipse/birt/report/designer/ui/internal/rcp/wizards/NewReportWizard.java:160 | Every canonical digit string is the text of the number it denotes. |
| Decimal.NatToStringInjective | UI/org.eclipse.birt.report.designer.ui.rcp/src/org/eclipse/birt/report/designer/ui/internal/rcp/wizards/NewReportWizard.java:160 | Distinct counters have distinct texts. |
| NewReportWizard.NormaliseFileName | UI/org.eclipse.birt.report.designer.ui.rcp/src/org/eclipse/birt/report/designer/ui/internal/rcp/wizards/NewReportWizard.java:181-188 | The result ends with `.rptdesign` and has the typed name as a prefix. It equals the typed name exactly when that name already ends with `.rptdesign`. Otherwise what follows the typed name is exactly the extension. |
| NewReportWizard.NormaliseIdempotent | UI/org.eclipse.birt.report.designer.ui.rcp/src/org/eclipse/birt/report/designer/ui/internal/rcp/wizards/NewReportWizard.java:181-188 | Normalising a name twice gives the same result as normalising it once. |
| NewReportWizard.NormaliseFixedPoints | UI/org.eclipse.birt.report.designer.ui.rcp/src/org/eclipse/birt/report/designer/ui/internal/rcp/wizards/NewReportWizard.java:181-188 | Normalisation leaves a name unchanged if and only if it ends with `.rptdesign`. |
| NewReportWizard.SuggestionSurvivesNormalisation | UI/org.eclipse.birt.report.designer.ui.rcp/src/org/eclipse/birt/report/designer/ui/internal/rcp/wizards/NewReportWizard.java:181-188 | A suggested name that the user accepts without editing passes through normalisation unchanged. |

## Left out

- NewReportWizard.SuggestName: the Java counter is a 32-bit `int`, and the model's counter is unbounded. The proved bound `count <= |existing|` shows that wrap-around would need more than 2^31 - 1 colliding names in one directory.
- NewReportWizard.SuggestName: existence is exact membership in a set of names. A case-insensitive file system, where `File.exists()` would also match differently-cased names, is not modelled. Neither is a directory that changes during the search.
- The directory path (`getDefaultLocation`, `Platform.getLocation`) and the localized default base name (`Messages`) are host-framework lookups. They become the parameters `existing` and `base`.
- Template resolution (`Platform.find`, URL streams, `FileInputStream`) is bundle and file-system I/O.
- `doFinish`'s byte copy, including `mkdirs` and the single read sized by `available()`, is stream I/O. Its result depends on the stream implementation.
- Opening the editor through `asyncExec`, workbench pages and cheat sheets is a UI-thread hand-off plus workbench calls.
- `setReportSettings` makes foreign calls into the report-model library (`ReportDesignHandle`) and swallows `SemanticException`.
- `canFinish` (NewReportWizard.java:351-355) is a bare conjunction of two page-completeness flags, with nothing to state beyond its body.
- Java strings are sequences of UTF-16 code units, while a Dafny `string` is a sequence of Unicode scalar values. For the ASCII suffix `.rptdesign`, `endsWith` and concatenation agree on every well-formed string. A Java string holding an unpaired surrogate cannot be represented in the model.
- `addPages`, the progress monitor, `init`, `setInitializationData` and `getDefaultPageImage` are wizard and widget plumbing.
- Case-insensitive extension matching is not modelled because the source does not do it. `String.endsWith` is case-sensitive, so `Report.RPTDESIGN` gets a second extension, and the model keeps that behaviour.
