# NBM update-center deployment, modelled in Dafny

`deploy_nbm.py` publishes NetBeans module packages (NBM files) to an update-center repository
(`snap`, `snap-extensions`, …) of one SNAP release. A run does the following:

1. It checks that every incoming package supersedes the packages it replaces. Packages are
   matched by `codenamebase`. A replacement must have a strictly greater
   `OpenIDE-Module-Specification-Version` under LooseVersion ordering.
2. It copies the current update center and deploys into the copy. Replaced packages are removed
   and incoming ones are copied in.
3. It builds `updates.xml`, one module entry per package, with the package's `license` child
   taken out and deduplicated by license name. It then validates the tree against the
   autoupdate catalog 2.5 DTD.
4. It moves the release symlink to the copy and mails a report.

The model covers the decision logic of steps 1 to 4 as pure functions over immutable data:

| module | contents |
|---|---|
| `Wrappers` | `Option` and `Result` |
| `Decimal` | digit strings, `str(n)` and its inverse |
| `Xml` | lxml elements as a value type |
| `Version` | LooseVersion of a dotted-numeric string as `seq<nat>`, ordered like Python lists |
| `Errors`, `Package` | a package is its file name, byte size and `Info/info.xml` root |
| `Resolver` | the supersession check and the deployment plan |
| `Deployment` | the report and the plan's effect on the repository |
| `Dtd` | the catalog DTD as a predicate |
| `Catalog` | `get_module_info` and `generate_updatexml` |
| `Release` | the `--release` argument check |
| `Pipeline` | one whole run |

The source file carries unresolved merge-conflict markers. The model follows the lower side of
each conflict. That side is the one that uses `check_release` and `init_for_new_version`.
In `deploy_nbms` the two sides hold the same statements and differ only in layout.

Three behaviours of the code deserve a note:

- **Trailing zeros.** LooseVersion does not pad missing trailing components with zero. It
  compares component lists as Python lists, so `1` is older than `1.0` (`Version.PrefixIsOlder`).
- **One package per codename.** The resolver never compares incoming packages with each other,
  so two incoming packages with one codename both land. A deployment keeps at most one package
  per codename only when the incoming codenames are distinct
  (`Deployment.DeployKeepsCodenamesUnique`, `Deployment.DuplicateIncomingCodenamesBothLand`).
- **Where conflicts are detected.** `check_input` inspects the live repository, and
  `deploy_nbms` repeats the same loop on its copy. Both see the same listing, so one
  function, `Resolver.Resolve`, models both.

## Model

| member | source | states |
|---|---|---|
| Package.SpecificationVersion | deploy_nbm.py:143-151 | the version attribute of the first `manifest` child, possibly absent; a missing-version-info error exactly when no child is a `manifest` |
| Package.Codename | deploy_nbm.py:136-140 | the root's `codenamebase` attribute, and none exactly when the root has no such attribute |
| Version.Parse | deploy_nbm.py:150 | a version exists exactly for a non-empty dotted-numeric string |
| Version.LessIsLexLess | deploy_nbm.py:217 | the recursive comparison equals the lexicographic reference order: a proper prefix, or a smaller first differing component |
| Version.LessIrreflexive | deploy_nbm.py:217 | no version is newer than itself |
| Version.LessTransitive | deploy_nbm.py:217 | the version order is transitive |
| Version.LessTrichotomous | deploy_nbm.py:217 | any two versions are ordered one way, equal, or ordered the other way, and never both ways |
| Version.ParseFormat | deploy_nbm.py:150 | printing a non-empty version and parsing it back gives the same version |
| Version.NumericNotLexical | deploy_nbm.py:217 | `1.9` is older than `1.10`: components compare as numbers |
| Version.PrefixIsOlder | deploy_nbm.py:217 | `1` is older than `1.0`, and `1.0` is not older than `1` |
| Resolver.Newer | deploy_nbm.py:215-217 | succeeds exactly when both versions are readable and comparable; its value says the incoming package supersedes; an error names the package at fault |
| Resolver.Check | deploy_nbm.py:214-226 | packages with different codenames pass silently; a same-codename package passes with one "Replacing" line iff it is strictly newer, and otherwise raises an explained error |
| Resolver.CheckOne | deploy_nbm.py:212-226 | one existing package passes iff every same-codename incoming package supersedes it; a failure is explained by one offending incoming package |
| Resolver.CheckAll | deploy_nbm.py:210-226 | the check succeeds iff every pair of a package to delete and a same-codename incoming package is a supersession; a failure is explained by one offending pair |
| Resolver.CheckOneSound | deploy_nbm.py:212-221 | every line the inner loop reports is the "Replacing" line of the existing package and a same-codename incoming one |
| Resolver.CheckOneComplete | deploy_nbm.py:212-221 | the inner loop reports the "Replacing" line of every same-codename incoming package |
| Resolver.CheckAllSound | deploy_nbm.py:210-221 | every line the outer loop reports belongs to some package to delete and a same-codename incoming one |
| Resolver.CheckAllComplete | deploy_nbm.py:210-221 | the outer loop reports the "Replacing" line of every matching pair |
| Resolver.CheckOneCount | deploy_nbm.py:212-221 | the inner loop reports exactly one line per incoming package sharing the existing package's codename |
| Resolver.CheckAllCount | deploy_nbm.py:210-221 | the outer loop reports exactly one line per (package to delete, same-codename incoming package) pair |
| Resolver.ToDelete | deploy_nbm.py:208-209 | an existing package is selected iff its codename is among the incoming codenames |
| Resolver.Resolve | deploy_nbm.py:199-231 | the plan exists iff every same-codename pair is a strict supersession; otherwise the error is explained by an offending pair; the copy list is the incoming list; a package is deleted iff it shares a codename with an incoming one |
| Deployment.LineIsReplacement | deploy_nbm.py:209-221 | a line of a selected package and a same-codename incoming one is the line of an existing package and an incoming package sharing its codename |
| Deployment.ReplacementIn | deploy_nbm.py:209-221 | the line of every existing package and same-codename incoming package is among the checked lines |
| Deployment.ReplacedLines | deploy_nbm.py:209-221 | the checked lines are exactly the "Replacing" lines of existing packages and same-codename incoming ones |
| Deployment.ResolveReport | deploy_nbm.py:217-231 | the report opens with "Replacing" lines, one per same-codename (package to delete, incoming package) pair and only lines of such pairs, followed by one "Deploying" line per incoming package in order |
| Deployment.Render | deploy_nbm.py:218-229 | a message opens with "Replacing " or "Deploying " exactly for its kind of line, names the replaced or deployed package right after, and ends with `)` |
| Deployment.ReportText | deploy_nbm.py:200-231 | the report text is empty iff there is no line, and otherwise starts with a newline |
| Deployment.ReportTextAppend | deploy_nbm.py:218-231 | the text of two runs of lines is the text of the first followed by the text of the second |
| Deployment.Keep | deploy_nbm.py:233-235 | a package survives removal iff it was listed and its name is not removed |
| Deployment.ApplyPlan | deploy_nbm.py:233-240 | every copied package is present; any other package present was listed before and shares no file name with a deleted or copied one; every listed package with no such shared name stays |
| Deployment.KeepUnique | deploy_nbm.py:233-235 | removal keeps at most one package per codename |
| Deployment.Survivors | deploy_nbm.py:233-240 | every package that is neither deleted nor overwritten was listed before and shares neither a codename nor a file name with an incoming package |
| Deployment.DeployEffect | deploy_nbm.py:233-240 | after deployment every incoming package is present, and an existing package is present iff neither its codename nor its file name is incoming |
| Deployment.DeployKeepsCodenamesUnique | deploy_nbm.py:233-240 | with unique codenames before and among the incoming packages, codenames stay unique after deployment |
| Deployment.DuplicateIncomingCodenamesBothLand | deploy_nbm.py:237-240 | two incoming packages with one codename are both copied, leaving that codename twice |
| Xml.FirstTagged | deploy_nbm.py:148-150 | the position of the first child with the tag, or none exactly when no child has it |
| Xml.LastTagged | deploy_nbm.py:255-257 | the position of the last child with the tag, or none exactly when no child has it |
| Decimal.FromNat | deploy_nbm.py:261 | `str(size)` is a non-empty digit string without a leading zero that reads back as the size |
| Catalog.LicenseOf | deploy_nbm.py:253-257 | the license taken out is tagged `license`, and there is none exactly when no child is a `license` |
| Catalog.GetModuleInfo | deploy_nbm.py:248-262 | the entry keeps the root's tag, and any license taken out is tagged `license` |
| Catalog.ModuleInfoSpec | deploy_nbm.py:253-262 | the entry is the root with `downloadsize` set to the file size and nothing else changed; only the last license child is removed, and putting it back restores the children |
| Catalog.Dedup | deploy_nbm.py:359-362 | the kept licenses have pairwise distinct names |
| Catalog.AddLicense | deploy_nbm.py:360-362 | the kept licenses stay first; the new license's name is kept afterwards; the license itself is appended iff no kept license has its name |
| Catalog.AddLicenseDistinct | deploy_nbm.py:360-362 | adding a license keeps the kept names pairwise distinct |
| Catalog.AddLicenseCovers | deploy_nbm.py:360-362 | adding a license keeps every license seen so far covered by name, the new one included |
| Catalog.DedupCovers | deploy_nbm.py:359-362 | every license seen has its name among the kept ones |
| Catalog.DedupKeepsFirstSeen | deploy_nbm.py:359-362 | each kept license is the first one seen with its name |
| Catalog.SeveralLicensesIff | deploy_nbm.py:364 | more than one license is kept iff two seen licenses differ in name |
| Catalog.FoundLicenses | deploy_nbm.py:355-359 | every collected license is tagged `license` |
| Catalog.FoundLicensesAppend | deploy_nbm.py:355-359 | licenses are collected in listing order: those of a listing `a + b` are those of `a` followed by those of `b` |
| Catalog.CarriedLicensesFound | deploy_nbm.py:355-359 | the license of every listed package is collected |
| Catalog.FoundLicensesCarried | deploy_nbm.py:355-359 | every collected license is the license of some listed package |
| Catalog.Build | deploy_nbm.py:345-367 | the root is `module_updates` stamped with the timestamp, and the "different licenses" warning is logged iff the catalog carries more than one license after the entries; the child layout is stated by Catalog.CatalogTags, Catalog.CatalogEntries and Catalog.CatalogNotification |
| Catalog.CatalogTags | deploy_nbm.py:348-367 | with every package rooted at `module`, the children are the notification exactly at position 0 when a message is given, then exactly one `module` entry per listed package, then only licenses |
| Catalog.CatalogEntries | deploy_nbm.py:355-358 | the entry of the i-th listed package sits right after the optional notification |
| Catalog.CatalogNotification | deploy_nbm.py:348-353 | when a message is given, the first child is a `notification` carrying it, with a `url` attribute iff a URL is given, holding that URL |
| Catalog.LicenseChildren | deploy_nbm.py:366-367 | the children after the notification and the entries are the deduplicated licenses |
| Catalog.KeptLicensesCover | deploy_nbm.py:355-362 | the kept licenses have distinct names and name every license a listed package carries |
| Catalog.KeptLicensesFirstSeen | deploy_nbm.py:355-362 | each kept license is the first collected with its name and is carried by a listed package |
| Catalog.KeptLicensesFirstInListing | deploy_nbm.py:355-362 | each kept license is carried by a listed package, and no package listed before that one carries a license of the same name |
| Catalog.NewLicenseIsFirst | deploy_nbm.py:359-362 | a license whose name no kept license has is the first of its name in the listing |
| Catalog.FoundNamesDifferSound | deploy_nbm.py:355-359 | two collected licenses with different names come from two packages whose licenses differ in name |
| Catalog.FoundNamesDifferComplete | deploy_nbm.py:355-359 | two packages whose licenses differ in name contribute two collected licenses that differ |
| Catalog.LicenseWarningIff | deploy_nbm.py:364-365 | the "different licenses" warning is logged iff two listed packages carry licenses with different names |
| Catalog.GenerateUpdateXml | deploy_nbm.py:373-379 | a generated catalog conforms to the DTD; otherwise the run fails with the validation error |
| Catalog.CatalogValidIff | deploy_nbm.py:271-272 | a root laid out as notification, modules and licenses validates iff every module and license does |
| Catalog.GenerateIff | deploy_nbm.py:373-379 | with every package rooted at `module`, generation succeeds iff every module entry and every kept license is valid |
| Catalog.DownloadSizeConforms | deploy_nbm.py:281-292 | setting `downloadsize` on a root that conforms in every other attribute makes all `module` attributes conform |
| Catalog.UnlicensedIsFiltered | deploy_nbm.py:253-259 | with at most one license child, removing the last one removes every license child |
| Catalog.ModuleInfoValid | deploy_nbm.py:280-292 | a well-formed package root yields a valid module entry and a valid license |
| Catalog.EntriesValid | deploy_nbm.py:355-358 | well-formed packages give valid module entries |
| Catalog.KeptLicensesValid | deploy_nbm.py:359-362 | well-formed packages give valid kept licenses |
| Catalog.GenerateSucceeds | deploy_nbm.py:373-381 | a listing of well-formed packages always produces a catalog that validates |
| Catalog.MissingCodenameRejected | deploy_nbm.py:281 | a package without `codenamebase` makes validation, and hence generation, fail |
| DtdFacts.EntriesSound | deploy_nbm.py:271 | in valid catalog content every module entry is a valid `module` |
| DtdFacts.LicensesSound | deploy_nbm.py:271 | in valid catalog content every trailing license is a valid `license` |
| DtdFacts.EntriesComplete | deploy_nbm.py:271-274 | valid modules are valid catalog entries at their positions |
| DtdFacts.LicensesComplete | deploy_nbm.py:271 | valid licenses are valid at the trailing positions |
| DtdFacts.CatalogContentSound | deploy_nbm.py:271 | in a valid catalog of notification, modules and licenses, each part is valid |
| DtdFacts.CatalogContentComplete | deploy_nbm.py:271 | a notification, modules and licenses that are each valid form valid catalog content |
| XmlFacts.RemoveSoleTagged | deploy_nbm.py:258-259 | deleting the only child with a tag leaves exactly the other children |
| Release.CheckRelease | deploy_nbm.py:63-66 | the argument is accepted, unchanged, iff it starts with digits, a dot and a digit; otherwise it is rejected with itself as the reason |
| Release.MatchesIff | deploy_nbm.py:64 | the greedy reading accepts exactly the strings with a `digits.digits` prefix |
| Release.TrailingTextAccepted | deploy_nbm.py:64 | `3.0abc` is accepted: the pattern is anchored only at the start |
| Release.MalformedRejected | deploy_nbm.py:64-65 | `3`, `v3.0` and `3.` are rejected |
| Pipeline.Run | deploy_nbm.py:477-484 | an aborted run leaves the published repository unchanged; a conflict aborts with an explained error; a published run was conflict-free, has a valid catalog of its own repository, and holds every incoming package plus only untouched existing ones |
| Pipeline.DeleteNothing | deploy_nbm.py:208-209 | with no incoming package no existing package is selected for deletion |
| Pipeline.ResolveNothing | deploy_nbm.py:199-231 | with no incoming package the plan deletes, copies and reports nothing |
| Pipeline.ApplyNothing | deploy_nbm.py:233-240 | the empty plan leaves the repository as it is |
| Pipeline.NothingToDeploy | deploy_nbm.py:199-203 | with nothing to deploy the repository is unchanged and the report is empty |
| Pipeline.RunPublishes | deploy_nbm.py:477-484 | a conflict-free run over well-formed packages always publishes |

## Left out

- File-system and archive I/O: listing directories, reading zip archives and parsing or
  serialising XML. A package is given as its name, its size and its parsed `Info/info.xml` root.
  A directory listing is given as a sequence.
- Listing order: `os.listdir` order is arbitrary. The model takes the listing order as given,
  and the catalog lists the repository in the order `Deployment.ApplyPlan` leaves it.
- `datetime.now()`: the timestamp is a parameter.
- Logging, the gzip copy of `updates.xml`, and mailing the report (`reporting`, `sendmail`).
  The report is returned as a sequence of lines, and `Deployment.ReportText` renders it.
- Argument parsing, `check_nbm_dir` and `is_nbm`: the incoming directory is a sequence of
  packages. A missing `nbmdir` argument is modelled as an empty one (`Pipeline.NothingToDeploy`),
  although the script then mails a `None` report.
- `duplicate_current` and `update_symlink`: these only copy the tree and move a link.
  `Pipeline.Run` models their effect, so that the published repository changes only when a
  run completes.
- `init_for_new_version` (deploy_nbm.py:111-119) and a release with no update center yet:
  `main` calls `check_input` (:479) before `init_for_new_version` (:480). For such a release,
  `check_input` lists the directory from `get_current_updatecenter` (:109) with `os.listdir`
  (:87), which raises, so the first deployment of packages into a new release always fails.
  The creating code runs only when no `nbmdir` is given. `Pipeline.Run` always starts from an
  existing listing `current`, so it cannot express a missing directory or this failure.
- `check_permissions`: it is empty in the source.
- The upper side of each merge conflict: its `main` restricts `--release` to a fixed choice list
  and does not call `init_for_new_version`.
- Version.Parse: only dotted-numeric version strings are comparable. Python 2's LooseVersion
  also splits out alphabetic components and compares them with numbers by type name. The model
  reports such a version as not comparable.
- Catalog.Dedup: the script collects the licenses in a Python `set`, whose iteration order is
  unspecified. The model keeps the first license seen with each name and appends licenses in
  the order they were first seen.
- Catalog.GenerateUpdateXml: the DTD's `error` alternative for `module_updates` is not modelled,
  since the script never produces it. XML comments, element tails and attribute order are not
  modelled either.
