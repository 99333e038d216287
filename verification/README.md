# Verified model of the platform synchroniser and its companions

The repository keeps one file, `platform.yaml`, as the source of truth of a self-hosted collaboration platform.
`scripts/sync_platform.py` rewrites every other file that repeats one of its values: domain names, image tags,
environment values, port tables, the dev Caddyfile, the portal menu.  Its promise is convergence: whatever a
file held before, one run brings it to the same text, a second run changes nothing, and `--check` agrees with
what a run would do.  Around it stand a shell script that patches the cluster's CoreDNS configuration and a few
small services.  This project models that logic in Dafny and proves what the repository promises about it, or,
where a promise does not hold, exactly when it does.

## How it is organised

* **Text and patterns.** `Text` holds characters and runs of characters, `Words` splitting and joining,
  `Finding` first occurrences, `Decimal` printed numbers, `StableSort` and `NameOrder` the two sorts.  `Regex` is a
  backtracking matcher with the semantics of Python's `re`: a pattern denotes the list of its matches in the
  order the engine tries them, so greedy and lazy repetition, alternation, lookbehind, `\b`, `^` and `$` are
  what they are in the source.  Every pattern of the source appears as a value of that type, and each rewriter
  is the generic `Sub` applied to it.  What a pattern does is then proved, not assumed.  Python's tables of
  non-ASCII word characters, digits and spaces are arbitrary constants: nothing depends on their content.
* **Domains.** `Domain`, `DomainConvergence`, `DomainChanges`: the scan of `sub_domain` equals a rewriting of
  whole host-name tokens; from this follow convergence, independence of order and idempotence, and exactly
  which base domains and realm names they need.
* **Keyed values.** `Rewriters`, `RewriterPatterns`, `EnvWrites`, `EnvOrder`: image tags, `FROM` tags, environment
  values and realm segments as lenses on arbitrary text, and exactly when the order of two environment writes matters.
* **Coverage.** `Coverage`, `CoverageInvariance`, `CoverageVerdict`: the labels `check_domain_coverage` extracts, and
  exactly when rewriting the domains changes its verdict.
* **Caddyfile.** `Caddyfile`, `CaddyfileDev`, `CaddyfileTwice`, `CaddyfileStable`, `CaddyfileDomains`: two regex edits
  as a transformation of trees of directives; when deriving again changes a file; commutation with the domain passes.
* **Helm values and ports.** `HelmValues` specifies the nested updates, `HelmDocument` performs them in place;
  `Ports`, `PortFiles`.
* **The driver.** `Driver`, `DriverConvergence`, `DriverPlans`: snapshot, dirtiness, writes, `--check`, and what
  any number of runs leads to, in general, for the domain changes, and for the production manifest with the dev file
  derived from it.  `DomainWords` and `ImageDomains` settle when an image line and domains in one file can be rewritten
  in either order.
* **CoreDNS.** `CoreDns`, `CoreDnsRuns`, `CoreDnsStrip`, `CoreDnsBlocks`: what a run does to any file, and what any
  number of runs does to files with no block, one block or several.
* **Services.** `FanOut` and `Merge` (search), `Portal` (menu), `Metadata`, `Extraction` and `Ingest`
  (recordings), `Feeds` (security feeds), `Filelink` and `FilelinkHistory` (attachments).
* **In plain terms.** The theorems above speak of the rewriters through their own classes and constants.  These modules
  tie both to literal characters and to values a reader can look up: `PlainHosts` (host names and realms), `PlainSites`
  (sites, annotations, reports), `PlainLines` and `RawImages` (image, `FROM` and environment values), `PlainCaddyfile`,
  `PlainPorts` (generated lines), `HostRows` (lines of the Corefile, with its theorems in `CoreDns`), `PlainMenu` and
  `PlainRecordings`.  Ports by name, the order of results, feed entries and video names are in the modules themselves.

Loops of the source are methods with loops, each proved against a function; objects that change are classes.
Concurrent code is a state machine over its atomic steps, and theorems about it quantify over all runs.

## Where the source and its promises differ

* Patching the domains twice equals patching them once exactly when the realm is not named like one of the
  subdomains (`DomainChanges.PatchIsIdempotentExactly`).
* The coverage verdict can change under domain rewriting when a host name that starts with a subdomain runs into
  the annotation's key (`CoverageVerdict.KeyWithinReachChangesVerdict`); exactly when is
  `CoverageVerdict.VerdictSurvivesExactly`.
* Writes of two environment variables do not commute on every text.  The text in one variable's value can open an entry
  of the other one (`EnvOrder.StraddlingLosesOne`), and a comment line can give one value two names
  (`EnvWrites.SharedValueExactly`); the texts on which the order never matters are those of
  `EnvOrder.SubsCommuteExactly`.
* A run does not always settle a file that two planners patch, since both read the file as it was: it does exactly when
  the patch that is written leaves the other one nothing to do (`DriverPlans.SharedFileTakesOneRunExactly`,
  `ImageDomains.ImageFileTakesOneRunExactly`).
* Deriving the dev Caddyfile again from a derived one changes it exactly when one of the two patterns still matches
  (`CaddyfileStable.DerivedAgainExactly`), as it does with a second block that reads like the options
  (`CaddyfileStable.SecondOptionsAreSwapped`).
* A path that ends with a dot stops the whole Helm pass, since the sibling of the tag would lie below the tag
  (`HelmValues.SpecWorksExactly`, `HelmValues.PassWorksExactly`); one raw image line in a file puts its structured specs
  out of action (`HelmValues.RawShadowsStructured`).
* The CoreDNS patch drops the rest of the file exactly when the first begin marker has no end marker behind it
  (`CoreDnsStrip.StripExactly`, `CoreDnsStrip.OpenBlockForgetsTheRest`), and it never heals a file with several blocks
  (`CoreDnsBlocks.BlocksStay`).
* `collect_entries` says that undated feed entries are kept; they are the first to go when a feed exceeds its cap
  (`Feeds.UndatedSurviveExactly`).
* The Filelink provider forgets a live file exactly when the answer that names it was lost or its mapping was removed
  after a refused deletion (`FilelinkHistory.ForgottenExactly`, `FilelinkHistory.RefusalForgets`,
  `FilelinkHistory.LostAnswerForgets`), since `onFileDeleted` does not look at the server's status; and a deletion that
  comes before the mapping is stored purges nothing, for good (`FilelinkHistory.RequestExactly`,
  `FilelinkHistory.EarlyDeletionPurgesNothing`).  A purge whose answer is lost leaves a mapping to a file that is gone
  (`FilelinkHistory.StaleExactly`, `FilelinkHistory.UnheardPurgeLeavesMapping`).
* The paging loop of the batch ingest ends exactly when no token, the missing one included, comes back while the pages
  are truncated (`Ingest.EndsExactly`): a truncated page without a token makes it start over for ever
  (`Ingest.WithoutTokenNeverEnds`).

## Model

| member | source | states |
|---|---|---|
| `Domain.TailFirst` | scripts/sync_platform.py:159 | the engine's backtracking over the greedy base and suffix stops at the last end that has a dot, two letters and a word boundary, or fails when there is none |
| `Domain.SubDomainIsTokenwise` | scripts/sync_platform.py:159-160 | the whole scan equals rewriting each maximal run of word characters, dots and hyphens on its own: only runs that start with the label and a dot change, up to their last valid end, and every other character is copied |
| `DomainConvergence.OldBaseForgotten` | scripts/sync_platform.py:142-160 | rewriting to one base and then another equals rewriting to the second, on every text |
| `DomainConvergence.OldBaseForgottenExactly` | scripts/sync_platform.py:142-160 | a first base is forgotten by every later rewriting of every text exactly when it has a dot followed by at least two letters at its end and nothing but domain characters |
| `DomainConvergence.SubAllIsTokenwise` | scripts/sync_platform.py:243-244 | the fold over all subdomains is one token-wise rewriting that depends only on the set of labels |
| `DomainConvergence.SubAllOrderIrrelevant` | scripts/sync_platform.py:236-244 | the order and repetition of the subdomains do not matter, prefixes and hyphenated extensions included |
| `DomainConvergence.SubAllForgetsOldBase` | scripts/sync_platform.py:236-244 | all passes together forget any base used before; with equal bases they are idempotent |
| `PlainHosts.HostRewritten` | scripts/sync_platform.py:142-160 | a label, a dot and a domain of letters, digits, hyphens and dots that ends in a dot and two or more letters become the label, a dot and the base, wherever they stand alone; what stands around them is rewritten on its own |
| `PlainHosts.RunRewritten` | scripts/sync_platform.py:142-160 | in a longer run behind the label the last end of a dot, at least two letters and no further letter, digit or underscore decides what is replaced |
| `PlainHosts.RunKept` | scripts/sync_platform.py:142-160 | a run that does not start with the label and a dot, or has no such end, is left as it is |
| `PlainHosts.EachHostRewritten` | scripts/sync_platform.py:236-244 | with all subdomains passed, in any order, the host names of each of them get the base |
| `DomainChanges.PatchDomains` | scripts/sync_platform.py:241-256 | the loop over the subdomains and the realm pass compute the specified text |
| `DomainChanges.RealmIsRewrite` | scripts/sync_platform.py:255 | the realm pattern's scan equals the specification of a keyed rewriting |
| `PlainHosts.RealmRewritten` | scripts/sync_platform.py:247-255 | `realms/` at the start of a word and a segment of letters, digits, underscores and hyphens become `realms/` and the realm |
| `DomainChanges.PatchIsIdempotent` | scripts/sync_platform.py:241-256 | patching a patched file changes nothing when the realm is not one of the subdomains |
| `DomainChanges.PatchIsIdempotentExactly` | scripts/sync_platform.py:241-256 | for all texts at once, patching is idempotent if and only if the realm is not one of the subdomains |
| `DomainChanges.NextRunDerivesTheSameExactly` | scripts/sync_platform.py:975-979 | the run that patches the production file and the next run derive the dev file from the same text if and only if every realm segment already names the realm |
| `RewriterPatterns.ApplyIsRewrite` | scripts/sync_platform.py:101-139 | the four regex rewriters compute the one left-to-right specification of keys and values |
| `RewriterPatterns.ApplyTwice` | scripts/sync_platform.py:101-139 | writing twice is writing the second value |
| `RewriterPatterns.ApplyWrites` | scripts/sync_platform.py:101-139 | a write changes the values under the key and nothing else, on arbitrary text |
| `Rewriters.LayoutOfRewrite` | scripts/sync_platform.py:101-139 | after a write the same keys are found, and no new one appears in or around a written value |
| `Rewriters.LastWriteWins` | scripts/sync_platform.py:101-139 | the last of two writes wins |
| `Rewriters.ReadAfterWrite` | scripts/sync_platform.py:101-139 | reading after writing gives as many values as before, all of them the one written |
| `Rewriters.WriteOwnValue` | scripts/sync_platform.py:101-139 | writing the value already there changes nothing |
| `PlainLines.ImageLineWritten` | scripts/sync_platform.py:101-107 | the first image line of the repository gets the version; its tag is read up to white space or a quote |
| `PlainLines.FromLineWritten` | scripts/sync_platform.py:133-139 | the first `FROM` line of the repository gets the version; its tag is read up to white space |
| `PlainLines.EntryWritten` | scripts/sync_platform.py:110-130 | the first entry of the variable gets the value between its quotes, and the comment lines between its name and its value stay |
| `EnvOrder.WritesCommuteExactly` | scripts/sync_platform.py:110-130 | for every text, the order of two environment writes never matters, whatever the values, if and only if, read from left to right, no entry of one variable spoils one of the other: starts in its key, is lost with its value, or is left open before it |
| `EnvOrder.SubsCommuteExactly` | scripts/sync_platform.py:1036-1040 | the same of the two calls on the pattern |
| `EnvOrder.StraddlingLosesOne` | scripts/sync_platform.py:1036-1040 | for all names and values: a value in single quotes that holds the start of the other variable's entry in double quotes; writing it first removes that entry, writing it last finds no closing quote |
| `EnvWrites.SharedValueExactly` | scripts/sync_platform.py:119-130 | on a text where a comment makes two names own one value they commute if and only if the two values are equal |
| `Coverage.SiteLabelsAre` | scripts/sync_platform.py:305-327 | `findall` with the multi-line pattern extracts exactly the labels of the host names that start a line and open a block, port or not |
| `Coverage.SearchIsAnnotation` | scripts/sync_platform.py:308-311 | the annotation search returns the first quoted value behind the key |
| `Coverage.CheckDomainCoverage` | scripts/sync_platform.py:294-344 | the loop reports one problem per expected subdomain that lacks a site or, having one, an annotation, in order |
| `Coverage.NoProblemExactly` | scripts/sync_platform.py:329-344 | the report is empty if and only if every expected label is in both extracted sets |
| `PlainSites.SiteIsListed` | scripts/sync_platform.py:305-327 | a line with a host name of letters, digits, dots and hyphens, a port or none, and an opening brace puts its first label among the sites |
| `PlainSites.SitesAreLines` | scripts/sync_platform.py:305-327 | in an ASCII text the labels of the sites are the first labels of such lines and no others |
| `PlainSites.AnnotationIsRead` | scripts/sync_platform.py:308-328 | the annotated labels are the first labels of the comma-separated hosts in the first annotation's quotes, in order |
| `PlainSites.ReportedExactly` | scripts/sync_platform.py:329-344 | a missing site is reported of a key if and only if a subdomain of that key has none, a missing annotation if and only if one has a site and no annotation; of `registry`, `livekit`, `mail` and `autodiscover` nothing is |
| `PlainSites.ReportedInOrder` | scripts/sync_platform.py:329-344 | the reports stand in the order of the subdomains, at most one for each |
| `CoverageVerdict.SiteLabelsSurvive` | scripts/sync_platform.py:305-327 | the site labels are the same before and after all domain passes, on every text |
| `CoverageVerdict.AnnotatedLabelsSurviveExactly` | scripts/sync_platform.py:308-328 | the annotated labels are the same before and after all domain passes if and only if the first place whose rewritten token ends with the key's host lists the same labels as the annotation |
| `CoverageVerdict.OnePlaceSurvivesExactly` | scripts/sync_platform.py:308-328 | with one place for an annotation: if and only if its token ends with the key's host both before and after, or neither time |
| `CoverageVerdict.VerdictSurvivesExactly` | scripts/sync_platform.py:313-344 | the report is the same before and after all domain passes if and only if no declared subdomain with a site is annotated in only one of the two |
| `CoverageVerdict.VerdictSurvivesRewriting` | scripts/sync_platform.py:313-327 | so it is when no token that ends with the key's host starts with a subdomain, and no new domain ends with it |
| `CoverageVerdict.KeyWithinReachIsLost` | scripts/sync_platform.py:308-328 | for every subdomain and base a text whose annotation lists the subdomain before the passes and is gone after them |
| `CoverageVerdict.KeyWithinReachChangesVerdict` | scripts/sync_platform.py:313-344 | for every key that needs a site, every subdomain a site can have and every base: a text without a problem before the passes and with the problem of a missing annotation after them |
| `Caddyfile.SubIsStrip` | scripts/sync_platform.py:960 | the second edit removes exactly the blocks that start with a line break, blanks and `injection` and end at the first closing brace |
| `Caddyfile.StripPrints` | scripts/sync_platform.py:960 | on a printed tree of directives it prints the tree without its injection blocks, everything else in its order and at its depth |
| `CaddyfileDev.OptionsFound` | scripts/sync_platform.py:955 | the first pattern takes the options block and all white space behind it, giving one character back before the closing brace |
| `CaddyfileDev.DevPrints` | scripts/sync_platform.py:954-961 | the dev Caddyfile of a production file is the printed tree with the injection blocks pruned and the global options swapped |
| `PlainCaddyfile.DevFileIs` | scripts/sync_platform.py:954-961 | a production file, written out, with a comment and `order injection after encode` in its options and any number of sites becomes the file with `local_certs` in its options and every site without its injection block, line by line |
| `CaddyfileStable.UnchangedExactly` | scripts/sync_platform.py:954-961 | for every text: the derivation leaves it as it is if and only if neither pattern matches anywhere |
| `CaddyfileStable.DerivedAgainExactly` | scripts/sync_platform.py:954-961 | the derived file is the printed tree without injection blocks and with the new options, and deriving again changes it if and only if one of the two patterns matches; the injection pattern does only when dropping a block has put a brace behind a bare word `injection` |
| `CaddyfileStable.SecondOptionsAreSwapped` | scripts/sync_platform.py:954-959 | for every file with a block of its own that reads like the options block, at any depth and wherever it stands outside the injection blocks, a second derivation changes it |
| `CaddyfileStable.TwoLinesReadLike` | scripts/sync_platform.py:955 | a block that holds a comment line and the order directive reads like the options block, however it is indented |
| `CaddyfileTwice.DerivationIsIdempotent` | scripts/sync_platform.py:954-961 | deriving again changes nothing when the order directive stands in the options block only and no bare word `injection` has got a brace behind it |
| `CaddyfileDomains.DerivationCommutes` | scripts/sync_platform.py:975-986 | deriving commutes with all domain passes on every tree-structured file |
| `HelmValues.SetGet` | scripts/sync_platform.py:472-485 | a written path reads back as written, missing levels created; a path apart from it reads what it read before |
| `HelmValues.SetWorksExactly` | scripts/sync_platform.py:480-485 | the update succeeds if and only if there is a key and every node on the way is a mapping or missing |
| `HelmValues.SetsCommute` | scripts/sync_platform.py:480-485 | updates of paths that lie apart commute, failures included |
| `HelmValues.SiblingStandsBesideExactly` | scripts/sync_platform.py:488-492 | the sibling path stands beside the tag when the path does not end with a dot, and below it when it does |
| `HelmValues.KeysOfPath` | scripts/sync_platform.py:480-481 | a dot joins the keys of two paths, and a word without a dot is one key |
| `HelmDocument.Mapping.SetNested` | scripts/sync_platform.py:472-485 | the descent through the mappings updates the document in place to the specified one, and leaves it as it was when it fails |
| `HelmDocument.ApplySpecs` | scripts/sync_platform.py:533-538 | the loop over the specs performs exactly their writes, in order |
| `HelmValues.SpecsAreReadBack` | scripts/sync_platform.py:533-538 | after all specs of a file each version and repository reads back as given |
| `HelmValues.ImageIsReadBack` | scripts/sync_platform.py:533-538 | the version of a spec of `front.last` stands under the keys of `front` and then `last`, the repository under those of `front` and then `repository` |
| `HelmValues.SpecOrderIrrelevant` | scripts/sync_platform.py:511-518 | the specs of a file may come in any order |
| `HelmDocument.ComputeFile` | scripts/sync_platform.py:520-542 | the change of one file: nested updates without a raw image line; with one, every tag read behind the repository of a raw spec is its version afterwards, and the text has changed by edits of such tags only |
| `RawImages.RawsRetagged` | scripts/sync_platform.py:520-529 | with raw specs of different repositories: every tag read behind `image:`, white space, the repository and a colon is the spec's version, and the text is the old one after edits each of which gives one such tag that version |
| `HelmValues.RawShadowsStructured` | scripts/sync_platform.py:521-529 | one raw image line puts all structured specs of its file out of action; without one all of them apply |
| `HelmValues.WritesWorkExactly` | scripts/sync_platform.py:480-485 | writes to paths that lie apart all work if and only if each of them works on the file as it was |
| `HelmValues.SpecWorksExactly` | scripts/sync_platform.py:472-492 | one spec works if and only if its tag path does not end with a dot and can be written |
| `HelmValues.PassWorksExactly` | scripts/sync_platform.py:533-538 | the pass over a file works if and only if every spec works on what the specs before it left |
| `HelmValues.PassWorksOnTheFile` | scripts/sync_platform.py:533-538 | with paths apart, if and only if every tag path can be written in the file as it was |
| `Ports.AllPorts` | scripts/sync_platform.py:549-558 | the loop's table gives a name the port its last declaration among the others gives it, else the one among the connectors, else that of the last service that declares it |
| `Ports.K3dPorts` | scripts/sync_platform.py:561-572 | the loop's table gives a name the port of the connectors, else that of the last service other than `grommunio_dev` that declares it, and has no other name |
| `Ports.MergeIsUnion` | scripts/sync_platform.py:549-558 | with every name declared once, merging puts the tables one after the other |
| `Ports.K3dIsRestriction` | scripts/sync_platform.py:549-572 | then the cluster's table is the restriction of the whole table to the names its sources declare |
| `Ports.AllPortsAre` | scripts/sync_platform.py:549-558 | the value of every name in the whole table, from the declarations alone |
| `Ports.K3dPortsAre` | scripts/sync_platform.py:561-572 | the value of every name in the cluster's table, from the declarations alone |
| `Ports.K3dExactly` | scripts/sync_platform.py:561-572 | with one port per name: the cluster's table has a name, with that port, if and only if a service other than `grommunio_dev` or the connectors declare it |
| `Ports.PortsInOrder` | scripts/sync_platform.py:549-572 | the tables list each name once, in the order of first declaration: services, connectors, others |
| `PortFiles.BuildEnvBlock` | scripts/sync_platform.py:644-648 | the loop builds the block of header, one line per port, and footer |
| `PortFiles.EnvBlockReads` | scripts/sync_platform.py:644-648 | reading the block's lines gives back the table |
| `PortFiles.BuildK3dLines` | scripts/sync_platform.py:631-634 | the loop writes three lines per port |
| `PortFiles.K3dListReads` | scripts/sync_platform.py:631-634 | reading those lines gives back the table |
| `PortFiles.DefaultsRead` | scripts/sync_platform.py:1066-1067 | reading the lines of the test defaults gives back every entry of the table they were written from, in the order of the names |
| `PortFiles.SubIsReplaced` | scripts/sync_platform.py:650-654 | the lazy pattern replaces every stretch from a begin marker to the first end marker behind it |
| `PortFiles.BlockReplacedTwice` | scripts/sync_platform.py:650-659 | replacing a block again gives what replacing it once with the new block gives |
| `PortFiles.GeneratedBlockIsComplete` | scripts/sync_platform.py:644-652 | for every table the generated block starts with the marker and ends with its only end marker |
| `PlainPorts.EnvBlockIs` | scripts/sync_platform.py:644-648 | the block written out: marker, two comment lines, a line with name, equals sign and digits for each port in order, end marker |
| `PlainPorts.EnvFileIs` | scripts/sync_platform.py:644-659 | a file with one block keeps what stands before and behind it and has the generated block between |
| `PlainPorts.K3dLinesAre` | scripts/sync_platform.py:631-634 | the three lines of each port, in the order of the table |
| `PlainPorts.DefaultLinesAre` | scripts/sync_platform.py:1066-1067 | a line with the quoted name and the digits for each entry, in the order of the names by their first different character |
| `Decimal.DigitsAre` | scripts/sync_platform.py:646 | the digits of a number: those of its tenth, then the last one |
| `Driver.Repository.Sync` | scripts/sync_platform.py:1110-1161 | all changes are computed and judged on one snapshot; `--check` and structural problems write nothing; otherwise the dirty changes are written in order |
| `Driver.LastDirtyWins` | scripts/sync_platform.py:1122-1157 | after a run a file holds what its last dirty planner wanted |
| `Driver.CheckAgreesWithApply` | scripts/sync_platform.py:1134-1157 | `--check` succeeds if and only if a run would leave every file as it is |
| `DriverConvergence.RunIsComposition` | scripts/sync_platform.py:1122-1157 | for idempotent, commuting planners one run is the composition of the winning planners, although each read the old snapshot |
| `DriverConvergence.CleanStaysClean` | scripts/sync_platform.py:1134-1157 | a clean planner never becomes dirty again |
| `DriverConvergence.DirtyCountFalls` | scripts/sync_platform.py:1134-1157 | each run strictly reduces the dirty planners of every file that has any |
| `DriverConvergence.Converges` | scripts/sync_platform.py:1122-1157 | within as many runs as any file has dirty planners all files reach the composition of all planners, `--check` then succeeds and later runs change nothing |
| `DriverConvergence.RivalsNeverSettle` | scripts/sync_platform.py:1122-1157 | without commutation two planners of one file can alternate for ever |
| `DriverPlans.PatchesConverge` | scripts/sync_platform.py:1122-1157 | the convergence theorem in terms of the text rewritings of plain file patches |
| `DriverPlans.DomainChangesTakeOneRunExactly` | scripts/sync_platform.py:230-257 | the domain changes of any number of different files settle in one run, whatever the files hold, if and only if the realm is not named like a subdomain |
| `DriverPlans.SharedFileTakesOneRunExactly` | scripts/sync_platform.py:1122-1157 | two patches of one file: one run is enough if and only if the patch that is written leaves the other nothing to do; when they commute on the text that is when at most one is dirty or the later one leaves nothing to do, and two runs are enough |
| `DriverPlans.ImageAndDomainsTakeOneRunExactly` | scripts/sync_platform.py:1125-1129 | the same of a raw image line and the domain passes in one file, on every text |
| `ImageDomains.ImageAndDomainsCommute` | scripts/sync_platform.py:101-160 | the image tag and the domain passes commute on every text in which the passes leave the word `image` of every entry, when the repository names no subdomain and no realm, the tag holds nothing to rewrite, and base and realm do not end in `image` |
| `ImageDomains.ImageFileTakesOneRunExactly` | scripts/sync_platform.py:1125-1129 | on such a text a run settles the file if and only if at most one of the two is out of date or the domain passes write the image line as it should be; two runs always do |
| `ImageDomains.RepositoryDomainMatters` | scripts/sync_platform.py:101-160 | for every subdomain, old and new base, tag and version: an image line whose repository is named under the old base gets the version in one order and keeps its tag in the other |
| `DomainWords.Cut` | scripts/sync_platform.py:159-160 | the passes rewrite what stands before and behind a character that belongs to no host name and no realm segment on its own |
| `DomainWords.UndomainedStays` | scripts/sync_platform.py:159-160 | a text in which no subdomain begins a host name and no realm segment stands is what the passes make of it and of nothing else |
| `DriverPlans.BaseChangeTakesOneRun` | scripts/sync_platform.py:964-995 | changing the base takes one run exactly when the dev file, written into what it holds, does not see the realm pass's edits, and two at most |
| `CoreDns.ConfigMap.BuildLines` | dev-cluster/patch-coredns-hosts.sh:91-94 | the loop writes one line for each domain read, in order, with the address as first field and the domain behind it, an empty list included |
| `CoreDns.ConfigMap.Patch` | dev-cluster/patch-coredns-hosts.sh:54-142 | a run stores the stripped Corefile with the markers and the lines, addresses first, inserted behind the first `hosts` opening, or exits and stores nothing when the address or the opening is missing |
| `CoreDns.RowsAreRead` | dev-cluster/patch-coredns-hosts.sh:91-94 | split at line breaks and blanks, the lines have the address as first field and the domain read as what follows, row by row |
| `CoreDns.StoredPieces` | dev-cluster/patch-coredns-hosts.sh:132-142 | the stored text is what stands up to the first opening, a line break, the begin marker, the lines, the end marker and the rest without line breaks at its end |
| `CoreDnsStrip.StripExactly` | dev-cluster/patch-coredns-hosts.sh:107-117 | for every text: the strip loses nothing but one block if and only if the first begin marker, if any, has an end marker behind it; otherwise everything from that marker on |
| `CoreDnsStrip.OpenBlockForgetsTheRest` | dev-cluster/patch-coredns-hosts.sh:98-142 | a run on a file with an open block does what it does on the file cut off before it, whatever follows |
| `CoreDnsStrip.BlockIsForgotten` | dev-cluster/patch-coredns-hosts.sh:98-142 | a complete block, wherever it stands and whatever it holds, has no influence on a run |
| `CoreDns.HostsEngine` | dev-cluster/patch-coredns-hosts.sh:132 | the pattern matches the word `hosts` up to the opening brace on its line |
| `CoreDns.InsertAt` | dev-cluster/patch-coredns-hosts.sh:132-137 | the block goes right behind the first such opening |
| `CoreDnsRuns.ClosedForm` | dev-cluster/patch-coredns-hosts.sh:96-142 | the text after any number of runs: prefix, line break, block, one line break per further run, and the rest without its final line breaks |
| `CoreDnsRuns.OneBlock` | dev-cluster/patch-coredns-hosts.sh:107-138 | the begin marker stands nowhere but right behind the opening |
| `CoreDnsRuns.ScriptLeavesOneBlock` | dev-cluster/patch-coredns-hosts.sh:51-142 | the same of the script's own markers and lines after any number of runs on a file without a begin marker |
| `CoreDnsStrip.RunsExactly` | dev-cluster/patch-coredns-hosts.sh:96-142 | any number of runs leaves every file alone when no `hosts` block is found, and gives the closed form when no begin marker is left before the opening |
| `CoreDnsBlocks.BlocksStay` | dev-cluster/patch-coredns-hosts.sh:96-142 | for a file with any number of complete blocks: the number of begin markers stays over any number of runs, since each run strips one block and inserts one; a file without a block gets one if a run finds a `hosts` block |
| `CoreDnsBlocks.ScriptKeepsBlocks` | dev-cluster/patch-coredns-hosts.sh:51-142 | the same of the script's own markers and lines |
| `CoreDnsRuns.NoHostsNoChange` | dev-cluster/patch-coredns-hosts.sh:133-135 | without a `hosts` block no run changes anything |
| `FanOut.Gather.Complete` | connectors/unified-search/app/fanout.py:30-50 | one coroutine ends or is timed out; only its own slot changes |
| `FanOut.Gather.Outcomes` | connectors/unified-search/app/fanout.py:76-89 | the loop returns one outcome per source in mapping order, each explained by its own source |
| `FanOut.ScheduleIrrelevant` | connectors/unified-search/app/fanout.py:63-89 | whatever the interleaving, a source's outcome depends on that source and the timeout alone |
| `FanOut.NobodyBlocks` | connectors/unified-search/app/fanout.py:59-62 | from every state all pending sources can still be completed, in no more steps than there are of them |
| `FanOut.EveryStepCounts` | connectors/unified-search/app/fanout.py:65-68 | every completion leaves fewer sources pending |
| `FanOut.OkExactly` | connectors/unified-search/app/fanout.py:30-50 | a source succeeds if and only if it returned before the timeout, and then with its own results |
| `FanOut.OutcomeOfEachBehaviour` | connectors/unified-search/app/fanout.py:30-50 | what each kind of source leads to, spelled out: its results, its error, or a timeout |
| `Merge.MergeIsTheStablePermutation` | connectors/unified-search/app/fanout.py:92-108 | the merge is the only arrangement of all results that is descending by timestamp and keeps ties in order; none is lost |
| `Merge.LatestFirst` | connectors/unified-search/app/fanout.py:92-108 | of two results with a timestamp the later one comes first; a missing timestamp stands where 0 would |
| `Merge.ArrivalOrderKept` | connectors/unified-search/app/fanout.py:92-108 | results of one moment keep the order of the sources and, within a source, its own |
| `StableSort.StableIsUnique` | connectors/unified-search/app/fanout.py:108 | two stable descending arrangements of the same items are equal |
| `Portal.PortalApps` | connectors/unified-search/app/main.py:46-57 | the nested loops list the first occurrence of each key among the selected groups |
| `Portal.DefaultsExactly` | connectors/unified-search/app/main.py:46-49 | the default groups are selected exactly for callers that belong to no group |
| `Portal.MenuPlaces` | connectors/unified-search/app/main.py:51-57 | the menu is the list of first occurrences in their order |
| `Portal.MenuIsTheUnion` | connectors/unified-search/app/main.py:51-57 | it has every key of the selected groups, each once |
| `Portal.NothingLostExactly` | connectors/unified-search/app/main.py:51-57 | no entry is lost if and only if no key comes with two addresses |
| `Portal.GeneratedMenuLosesNothing` | scripts/sync_platform.py:1021-1031 | a generated configuration loses nothing, since the generator makes each address a function of its key |
| `PlainMenu.MenuFollowsTheGroups` | connectors/unified-search/app/main.py:46-57 | each entry comes from an app of a group the caller sees, entries stand in the order of the groups and of their apps, and every such app has an entry with its key from its own place or an earlier one |
| `PlainMenu.GeneratedMenuIs` | scripts/sync_platform.py:1021-1031 | for a generated configuration: the keys of the groups the caller sees, each with the address `https://`, its subdomain, a dot and the base |
| `Metadata.Within` | connectors/peertube-ingest/app/metadata.py:22-25 | a pattern built from slug characters, nested repetition included, stays inside their run |
| `Metadata.PeopleThenEnd` | connectors/peertube-ingest/app/metadata.py:22-25 | the nested third group accepts exactly the non-empty runs of its class |
| `Metadata.NameMatches` | connectors/peertube-ingest/app/metadata.py:22-25 | the pattern accepts exactly the names, and its groups are the date, the title and the participants |
| `Metadata.PrintedName` | connectors/peertube-ingest/app/metadata.py:22-40 | a printed name has one reading |
| `Metadata.NameIsPrinted` | connectors/peertube-ingest/app/metadata.py:22-40 | every accepted text is a printed name, with at most one line break behind it |
| `Extraction.PrintedKeyReadsBack` | connectors/peertube-ingest/app/metadata.py:28-42 | for any directory and extension a printed key reads back as its date, capitalised title and participants in order |
| `Extraction.OtherKeysDegradeExactly` | connectors/peertube-ingest/app/metadata.py:33-36 | a date is found exactly in printed names; any other key gives a title, no date and no participants |
| `PlainRecordings.RecordingIsRead` | connectors/peertube-ingest/app/metadata.py:28-42 | a key of directory, date, words, participants and extension gives back the date, the words with blanks between and capitals in front, and the participants in order, character by character |
| `PlainRecordings.OtherNameIsTheTitle` | connectors/peertube-ingest/app/metadata.py:33-36 | any other name that does not start with a digit is its title, with blanks for hyphens and underscores and none at its ends; a name of nothing else is `Meeting recording` |
| `PlainRecordings.TagsReplace` | connectors/peertube-ingest/app/metadata.py:45-59 | the tags `meeting-title`, `meeting-date` and `meeting-participants` each replace their own part of the meeting; all other tags change nothing |
| `PlainRecordings.RecordingIsUploaded` | connectors/peertube-ingest/app/ingest.py:28-50 | PeerTube gets the recording's bytes and the meeting its key describes, with the title of the tags if they are readable and have one; its answer or the first failure is reported |
| `Ingest.ListRecent` | connectors/peertube-ingest/app/s3_client.py:65-91 | for any division into pages the loop ends and returns exactly the wanted objects in listing order |
| `Ingest.RecentExactly` | connectors/peertube-ingest/app/s3_client.py:76-86 | an object is returned if and only if it has a key and was modified in the window |
| `Ingest.ServesExactly` | connectors/peertube-ingest/app/s3_client.py:71-91 | the pages the loop is specified for are the answers up to the first page that is not truncated |
| `Ingest.EndsExactlyWhenServed` | connectors/peertube-ingest/app/s3_client.py:71-91 | the loop ends if and only if there are such pages: its specification leaves out no server on which it ends |
| `Ingest.EndsExactly` | connectors/peertube-ingest/app/s3_client.py:71-91 | for a server that uses finitely many tokens the loop ends if and only if no token, the missing one included, comes back while the pages are truncated, and then within as many requests as there are tokens |
| `Ingest.RepeatedTokenNeverEnds` | connectors/peertube-ingest/app/s3_client.py:71-91 | when a token comes back and every page so far was truncated, the loop never ends |
| `Ingest.WithoutTokenNeverEnds` | connectors/peertube-ingest/app/s3_client.py:71-91 | any truncated page without a token that the requests reach sends the loop back to the first page, for ever |
| `Ingest.VideosExactly` | connectors/peertube-ingest/app/ingest.py:62-67 | the candidates kept are exactly those with a video's name |
| `Ingest.VideosAre` | connectors/peertube-ingest/app/ingest.py:62-67 | an ASCII name is a video's if and only if it ends in `.mp4`, `.webm`, `.mkv` or `.mov` in upper or lower case, one line break behind it allowed |
| `Ingest.NoGapExactly` | connectors/peertube-ingest/app/batch.py:27-31 | over any history every moment is covered if and only if no window begins after the previous listing |
| `Ingest.DailyRunsMissNothing` | connectors/peertube-ingest/app/batch.py:6-8 | when runs start at most 90000 seconds apart, every moment from 25 hours before the first start to the last listing lies between 25 hours before some run's start and that run's listing |
| `Ingest.NoObjectIsMissed` | connectors/peertube-ingest/app/batch.py:27-40 | with runs at most 25 hours apart, every video modified between the first window's start and the last listing is a candidate of some run, for any division of each listing into pages |
| `Ingest.IngestAll` | connectors/peertube-ingest/app/ingest.py:53-59 | one result per candidate in order, whatever fails |
| `Ingest.Batch` | connectors/peertube-ingest/app/batch.py:34-75 | the counts add up, and the exit code is 0 if and only if the listing worked and every video was uploaded |
| `Feeds.CollectEntries` | scripts/security_feeds.py:139-159 | the loop collects what each readable feed contributes |
| `Feeds.FailingFeedIsSkipped` | scripts/security_feeds.py:145-150 | a feed that fails takes nothing away from the others |
| `Feeds.MostRecentAreKept` | scripts/security_feeds.py:152-157 | what is kept is undated or published at the cutoff or later; something in the window is dropped only when the cap is reached, and nothing dropped is dated later than anything kept |
| `Feeds.LatestFirst` | scripts/security_feeds.py:152-157 | the latest entry comes first and the undated ones last |
| `Feeds.NothingDropped` | scripts/security_feeds.py:152-157 | when window and cap leave room for all, each entry is kept as often as the feed has it |
| `Feeds.FeedsInOrder` | scripts/security_feeds.py:145-159 | the contributions stand in the order of the feeds |
| `Feeds.UndatedSurviveExactly` | scripts/security_feeds.py:152-157 | undated entries all survive if and only if everything in the window fits under the cap or nothing is undated |
| `Feeds.MarkersAgreeExactly` | scripts/security_feeds.py:80-83 | the marker is `security-feed-id:`, the component, a colon and the digest, and two entries share it if and only if they share both |
| `Feeds.Tracker.OpenIssues` | scripts/security_feeds.py:245-257 | the loop opens an issue for each entry that has none, counts them, and goes on after network errors |
| `Feeds.IssuesAfterRun` | scripts/security_feeds.py:245-254 | exactly which markers have an issue after a run: one entry's failure blocks no other unless it ends the program |
| `Feeds.AtMostOneIssue` | scripts/security_feeds.py:245-254 | over any sequence of runs and failures each marker has at most one issue |
| `Feeds.RepeatRunOpensNothing` | scripts/security_feeds.py:245-254 | a run on entries that were all served before opens nothing, whatever happened between |
| `Filelink.KeysDiffer` | connectors/thunderbird-filelink-gokapi/background.js:78-117 | two attachments never share a storage key, nor does a mapping share one with an account |
| `Filelink.UploadIsSentExactly` | connectors/thunderbird-filelink-gokapi/background.js:32-56 | over every run, an upload goes on to be sent if and only if the last change of its account was a save with an address and a key |
| `Filelink.MappingsAreFaithful` | connectors/thunderbird-filelink-gokapi/background.js:32-118 | under every interleaving each mapping and each delete request names a file returned for that account and attachment |
| `FilelinkHistory.AllHeldExactly` | connectors/thunderbird-filelink-gokapi/background.js:32-118 | in every run with a server that names its files, refusals and lost answers allowed: the provider holds the name of every answered live file if and only if no such file's mapping was removed |
| `FilelinkHistory.RemovalNeedsRefusal` | connectors/thunderbird-filelink-gokapi/background.js:101-106 | a removed mapping leaves its file live only after the server refused to delete it |
| `FilelinkHistory.ForgottenExactly` | connectors/thunderbird-filelink-gokapi/background.js:32-118 | in every such run a live file is forgotten if and only if the answer that names it was lost, or its mapping was removed |
| `FilelinkHistory.StaleExactly` | connectors/thunderbird-filelink-gokapi/background.js:83-107 | in every such run a stored mapping names a file that is gone if and only if the server deleted it on request and no handler has removed the mapping |
| `FilelinkHistory.UnheardPurgeLeavesMapping` | connectors/thunderbird-filelink-gokapi/background.js:101-112 | for every account, attachment and file name: a run from the start in which the answer to a carried-out purge is lost and the mapping stays |
| `FilelinkHistory.LostForGood` | connectors/thunderbird-filelink-gokapi/background.js:58-71 | a file whose answer was lost stays on the server in every continuation and no request ever names it |
| `FilelinkHistory.RequestExactly` | connectors/thunderbird-filelink-gokapi/background.js:94-104 | a deletion sends a request if and only if at its lookup the mapping has been stored, has not been removed and names a file; otherwise it ends |
| `FilelinkHistory.RequestsExactly` | connectors/thunderbird-filelink-gokapi/background.js:94-104 | the requests of a whole run are those of its lookups between the storing and the removal of the mapping |
| `FilelinkHistory.OverForGood` | connectors/thunderbird-filelink-gokapi/background.js:83-117 | a deletion that has ended sends no request in any continuation |
| `FilelinkHistory.RefusalForgets` | connectors/thunderbird-filelink-gokapi/background.js:101-106 | for every account, attachment and file name: a run from the start in which a refused deletion makes the provider forget a live file |
| `FilelinkHistory.LostAnswerForgets` | connectors/thunderbird-filelink-gokapi/background.js:58-71 | for every account, attachment and file name: a run from the start in which a lost answer does |
| `FilelinkHistory.EarlyDeletionPurgesNothing` | connectors/thunderbird-filelink-gokapi/background.js:94-99 | for every account, attachment and file name: a run from the start in which a deletion before the mapping is stored purges nothing, in any continuation |
| `Filelink.Extension.UploadAnswered` | connectors/thunderbird-filelink-gokapi/background.js:65-73 | the answer without a link ends the upload; otherwise its file id, or the attachment's own id, is taken |
| `Filelink.Extension.SaveMapping` | connectors/thunderbird-filelink-gokapi/background.js:75-80 | the mapping is stored under the attachment's key |
| `Filelink.Extension.LookUp` | connectors/thunderbird-filelink-gokapi/background.js:94-104 | the deletion goes on only with a stored, non-empty file id |
| `Filelink.Extension.RemoveMapping` | connectors/thunderbird-filelink-gokapi/background.js:106 | the mapping is removed after the request, whatever its status |

## Left out

- YAML and JSON: documents are nested maps or plain text; loading, dumping and comment round trips are library calls.
- DomainChanges.PatchDomains: for files without one of the bare-domain patterns (scripts/sync_platform.py:163-205), which put the base behind a fixed key in six files.
- DomainChanges.PatchIsIdempotent: the same six files are left out.
- DomainChanges.PatchIsIdempotentExactly: the same six files are left out.
- Backslashes: labels, bases and generated blocks are taken literally, while `re.sub` gives backslashes in a replacement text a meaning; none of the values can hold one.
- HelmDocument.ApplySpecs: the document is updated in place, but documents in which two keys share one mapping through an alias are not modelled.
- HelmDocument.ComputeFile: the same.
- RawImages.RawsRetagged: for raw specs whose repositories differ from each other up to the colon and hold no `image:`, and whose versions are words without a colon; an entry that one spec writes could otherwise be read as another's.
- CoreDns.ConfigMap.Patch: that the lines read back is for an address without blanks and line breaks, as Kubernetes gives it.
- PlainSites.SitesAreLines: for ASCII texts.
- Ingest.VideosAre: for ASCII names; the Kelvin sign counts as a `k` in `Ingest.VideosExactly`.
- PlainHosts.HostRewritten: for host names between ASCII characters; `Domain.SubDomainIsTokenwise` covers every text.
- `check_oidc_coverage`, `compute_onboarding_changes` and the compose and Dockerfile planners: more of the same rewriters, or membership tests.
- The fixed header of the generated k3d file and of the test defaults.
- EnvOrder.SubsCommuteExactly: for all values at once.  For two given values an overlap can still be harmless, for instance when the text already holds them; which texts and values those are is not characterised.
- Caddyfile.StripPrints: a bare word `injection` with a brace on a later line is read as the head of a block, as the pattern reads it; a line that opens and closes an injection block at once is left out.
- DriverPlans.DomainChangesTakeOneRunExactly: the same six files are left out.
- DriverPlans.PatchesConverge: that rewritings of one file commute on every text is a hypothesis; it is discharged for planners of different files only.
- DriverPlans.ImageAndDomainsTakeOneRunExactly: that two runs are enough has the hypothesis that the two commute on the text, which `ImageDomains.ImageAndDomainsCommute` discharges from a condition on the inputs; the bare domain of `gokapi.yaml` is left out.
- DriverPlans.BaseChangeTakesOneRun: the dev file's YAML is abstract: placing a Caddyfile in it forgets the one placed before.
- CoreDnsRuns.ClosedForm: for Corefiles without a begin marker before the first `hosts` block of the stripped text, and without carriage returns, which Python's standard input would translate.
- CoreDnsStrip.RunsExactly: a begin marker left before the opening is left out here; for complete blocks `CoreDnsBlocks.BlocksStay` counts them, while their places are not given.
- CoreDnsBlocks.BlocksStay: for files in which each block begins a line and holds no other marker and no brace.
- FanOut.ScheduleIrrelevant: at exactly the timeout either outcome is possible; measured durations are the source's own completion time.
- Dates: feed dates and modification times are numbers; a feed that mixes dates with and without a time zone, on which Python's sort fails, is not part of this model.
- Feeds.AtMostOneIssue: the issue search is taken to see every issue opened before it.
- `resolve_since`: an argument scan.
- FilelinkHistory.ForgottenExactly: one server, which names the files it stores; each attachment of an account is uploaded once.
- HTTP, S3, PeerTube, Keycloak, GitHub and Gokapi calls: abstract outcomes of the handlers.
