# Inline-assembly catalog (asm.py) in Dafny

`asm.py` maintains an SQLite catalog of inline-assembly instruction sequences
found in GitHub projects. This project models the catalog-maintenance core:

- registering instructions and instruction sequences, with the format rules
  a sequence must meet;
- recording where a sequence occurs in a project;
- application categories ("keywords") of projects and their indented listing;
- the four-step integrity pass;
- the pure helpers: owner and project from a GitHub URL, the checkout
  directory of a project, and reading line counts from `cloc` output;
- the integer aggregates of the statistics report.

The database is the class `Catalog.Database`. It has one `seq` field per table,
and each field holds its rows in table order (the order `fetchone()` sees them).
Its invariant `Valid()` says:

- primary keys are distinct;
- instruction and sequence texts are unique;
- category rows stand in rowid order, so "the first row with this name" in
  table order is the row an unordered `SELECT ... fetchone()` returns;
- every link resolves.

Every store operation preserves `Valid()`. New rows get SQLite's rowid: one more
than the largest id of the table, or 1 for an empty table (`Tables.NextRowId`).
A call that ends the program (`exit(-1)`, or an uncaught `IndexError` or
`TypeError`) becomes an error result that leaves the store unchanged.

Modules:

| module | file | contents |
|---|---|---|
| Wrappers | wrappers.dfy | `Option` and `Result` |
| Strings | strings.dfy | Python's `str.split`, `str.join` and `str.replace` on characters, with the split/join round trips |
| Tables | tables.dfy | the rows of the tables, the lookups, the rowid rule, the predicates about links |
| Validation | validation.dfy | `check_for_invalid_instructions` and how a sequence text is cut into tokens |
| Catalog | catalog.dfy | the store and the operations that change it |
| Categories | categories.dfy | `display_application_cats` / `print_sub_cat` as the sequence of categories visited, each with its depth, and the `(depth, name)` lines printed for them |
| Integrity | integrity.dfy | `database_integrity_tests` |
| Github | github.dfy | `owner_project_from_github_url`, `get_project_dir` |
| Cloc | cloc.dfy | the line parser of `get_c_cpp_h_assembly_loc` |
| Stats | stats.dfy | the integer aggregates of `show_stats` over rows of analysed occurrences |

## Model

| member | source | states |
|---|---|---|
| Catalog.Database.constructor | asm.py:25-26 | a store opened on an empty database holds only the given seeded categories, which must stand in rowid order (increasing ids), and satisfies the invariant |
| Catalog.Database.AddInstruction | asm.py:141-160 | an existing instruction with this text gets the new test case in place and no other row changes; otherwise one row is appended with a fresh id, the test case (`""` when none is given) and the CONTROL_FLOW default; afterwards an instruction with this text and test case exists, and texts stay unique |
| Catalog.Database.InsertProjectEntry | asm.py:617-690 | an origin URL that does not start with `https://github.com` fails first, then one that does not match the GitHub project pattern, and both store nothing; otherwise one project row is appended with a fresh id, the last `/` field of the URL as its name, and the URL |
| Catalog.Database.AddSequence | asm.py:183-205 | an already-stored text changes nothing, and the check runs before splitting or validating; otherwise an invalid token rejects the sequence before anything is stored, with the first offending token and its rule; otherwise exactly one sequence row with a fresh id is appended; its links carry positions 0..n-1, one per token in order, each naming the instruction with the token's text; the instructions created are exactly the missing tokens, with an empty test case |
| Catalog.Database.StoreSequence | asm.py:189-204 | for a new, valid text: the sequence row, its position links and the instructions created for unknown tokens; earlier rows are kept |
| Catalog.Database.InsertSequence | asm.py:200-201 | appends the sequence row with an id no earlier sequence has |
| Catalog.Database.ResolveTokens | asm.py:191-198 | the returned ids name, token by token, an instruction with that text; the old instructions are a prefix of the new ones, and every added row is for a token not known before |
| Catalog.Database.ResolveToken | asm.py:194-198 | returns the id of the instruction with this text; it adds one (empty test case) only when none exists |
| Catalog.Database.AppendLinks | asm.py:199-204 | appends link `q` = (position `q`, sequence, `ids[q]`) for every `q`, keeping the earlier links |
| Catalog.AddSequenceTwice | asm.py:185-188 | registering the same text a second time finds it and stores nothing: after both calls the tables are exactly those the first call left, which are the old tables when it did not add, and the old tables plus the one new sequence (with its links and missing instructions) when it did; a rejected text is rejected again for the same token |
| Catalog.Database.AddSequenceInProject | asm.py:207-221 | the checks fail in the program's order: first path component not `projects`, no second component, origin URL not on github.com, unknown project URL, invalid instruction; an error changes nothing; on success the occurrence row names the project, the sequence whose text is the submitted text, and the path from its third component on; a known text leaves the other tables as they were, and a new one is stored exactly as by `AddSequence` (one sequence row, links spelling its tokens, instructions for the missing tokens) |
| Catalog.Database.InsertProjectKeyword | asm.py:226-233 | returns the id of the first category with exactly this name, with the store unchanged; otherwise a new top-level category with a fresh id; either way the returned id is the one a later lookup of the name finds first |
| Catalog.Database.AddKeywordsToProject | asm.py:607-615 | an unknown project URL fails with nothing stored; otherwise one (category, project) link per comma-separated keyword, in order, even for a link already present, each naming the first category with that name; new categories are top-level and named after keywords |
| Catalog.Database.AttachKeywords | asm.py:610-614 | the loop over the keywords: one link per keyword naming the first category with that name; only missing names are created, once each; earlier rows are kept |
| Catalog.Database.AttachKeyword | asm.py:611-614 | get-or-create the category, then append one link naming the first category with the keyword as its name |
| Tables.IndexOf | asm.py:185 | the first row whose key equals the key, and `None` exactly when no row has it |
| Tables.NextRowId | asm.py:201 | a new rowid is positive and larger than every existing id of the table |
| Tables.CategoryIdOf | asm.py:228 | `fetchone()` of the name lookup: `None` exactly when no category has the name, otherwise the id of a category with that name and no earlier category has it |
| Tables.CategoryIdOfKept | asm.py:228 | appending categories does not change which category a name already present finds |
| Tables.CategoryIdOfAppended | asm.py:229-230 | a category appended for a name no row had is the one that name then finds |
| Validation.FirstInvalid | asm.py:163-181 | `None` exactly when every token passes; otherwise the first token that breaks a rule, and the rule it breaks |
| Validation.Problem | asm.py:168-181 | a token passes exactly when it is none of `lock`, `rep`, `repne`, `rep nop` and, when it starts with `int `, it has the interrupt form; a malformed-interrupt refusal only happens to a token starting with `int ` |
| Validation.Tokens | asm.py:188 | at least one token; no token contains `,` or `;`; joined with `;` they give the text with every `,` replaced by `;` |
| Validation.TokensOfJoin | asm.py:188 | a text made of separator-free pieces joined by `;` is cut back into exactly those pieces |
| Validation.WellFormedInterrupt | asm.py:179 | `re.match('int \$0x[0-9a-f]{2}', t)`: the token begins with `int $0x` followed by two lower-case hex digits; `InterruptRule` ties it to `Problem` |
| Validation.InterruptRule | asm.py:177-181 | a token starting with `int ` passes exactly when it continues with `$0x` and two lower-case hex digits (a prefix match) |
| Validation.InterruptExamples | asm.py:166-181 | `int 3` is refused as a malformed interrupt, `int $0x80` passes, and a bare `xchg` passes with only a warning |
| Categories.ChildrenOf | asm.py:34 | the categories whose parent is the given id, in table order; `ChildrenBelong` and `ChildIndex` prove that these are exactly the table's rows with that parent |
| Categories.ChildrenBelong | asm.py:34 | every child returned is a category of the table with the given parent |
| Categories.ChildIndex | asm.py:34 | every category of the table with the given parent is among the children returned |
| Categories.VisitsCoverKids | asm.py:34-37 | a walk over sibling categories visits at least as many categories as there are siblings, and the first sibling first, at the walk's depth |
| Categories.Walk | asm.py:32-37 | `print_sub_cat`, as the lines printed for the visits of the walk: at least as many lines as siblings walked over, and the first sibling's name first at the walk's depth; the order and multiplicity of the visits are proved by `VisitsPreorder` and `VisitsOnce`, and `LineOfVisits` ties lines to visits |
| Categories.Listing | asm.py:39-45 | `display_application_cats`, as the lines printed for the visits of the walk from the top-level categories: at least one line per top-level category, and the first top-level category first, unindented; the order, multiplicity and contents of the visits are proved by `ListingPreorder`, `ListingVisitsOnce` and `ListingVisitsOfDistinctIds` |
| Categories.LineOfVisits | asm.py:36 | a line is printed exactly when some visit shows a category of that name at that number of tabs |
| Categories.VisitsShowKid | asm.py:35-37 | every sibling walked over is visited at the walk's depth, and, while the walk still descends, the walk over its own children one level deeper lies inside the walk |
| Categories.ListedWithSubtree | asm.py:32-45 | a category `d` SUPER_ID links below a top-level category is visited at depth `d`, and so is the walk over its own children |
| Categories.VisitsBelow | asm.py:32-37 | every visit of a walk is a category of the table with as many SUPER_ID links up to the top as its number of tabs, hanging below one of the siblings walked over |
| Categories.VisitsPreorder | asm.py:35-37 | every visit of a walk is followed immediately by the walk over its own children one level deeper: the visits split as `before + [v] + subtree of v + after` |
| Categories.VisitsOnce | asm.py:32-37 | with distinct ids, a walk over distinct siblings at the same depth visits no category twice |
| Categories.ListingVisitsAreCategoriesAtDepth | asm.py:32-45 | a category is visited at depth `d` exactly when it is a category of the table `d` SUPER_ID links below a top-level category, for `d` up to the number of categories |
| Categories.ListingIsCategoriesAtDepth | asm.py:32-45 | a line `(d, name)` is printed exactly when some category with that name sits `d` SUPER_ID links below a top-level category (for `d` up to the number of categories) |
| Categories.DepthUnique | asm.py:32-37 | with distinct ids a category sits at one depth at most |
| Categories.CategoryDepthBelowCount | asm.py:32-37 | with distinct ids a category of the table sits fewer SUPER_ID links below the top than there are categories |
| Categories.ListingOfDistinctIds | asm.py:32-45 | for distinct ids (every store keeps them so) a line `(d, name)` is printed exactly when some category with that name sits `d` SUPER_ID links below a top-level category, with no bound on `d` |
| Categories.ListingVisitsOfDistinctIds | asm.py:32-45 | for distinct ids (every store keeps them so) a category is visited at depth `d` exactly when it sits `d` SUPER_ID links below a top-level category, with no bound on `d` |
| Categories.ListingVisitsOnce | asm.py:32-45 | for distinct ids no category is visited twice, so each category below a top-level category prints exactly one line |
| Categories.ListedDepthBelowCount | asm.py:32-45 | for distinct ids every visit is fewer levels deep than there are categories, so the depth bound never stops the walk |
| Categories.ListingPreorder | asm.py:32-45 | for distinct ids the visit at any position is followed immediately, in the visits and in the printed lines, by the walk over its own children one tab deeper: the `print_sub_cat` call right after its `print` |
| Integrity.IntegrityCheck | asm.py:323-337 | the four checks in order: a dangling sequence id, then `rep; nop` / `rep;nop` in mnemonic code, then `.byte` in mnemonic code, then a `j…` instruction with CONTROL_FLOW 0; the result is the first that holds, and `None` exactly when none does |
| Integrity.ContainsIgnoringCase | asm.py:329 | `LIKE '%p%'` holds exactly when `p` occurs at some offset, up to ASCII case |
| Integrity.Count | asm.py:324 | `COUNT(*)` is at most the number of rows, and 0 exactly when no row satisfies the condition |
| Integrity.ResolvedStoreHasNoDanglingSequence | asm.py:324-326 | a store whose occurrences resolve (the store invariant) never fails the first check |
| Integrity.OneDanglingOccurrence | asm.py:324-326 | an occurrence of a sequence that was never stored is reported as dangling |
| Integrity.LikeExamples | asm.py:329-337 | the `LIKE` patterns ignore case (`REP;NOP` is caught, `JMP` counts as a jump), and `.byte` in non-mnemonic code passes |
| Integrity.LowerAscii | asm.py:329 | the folded character is never an upper-case ASCII letter, and a character changes only when it is one, into its lower-case partner |
| Integrity.LowerAsciiFolds | asm.py:329 | folding is idempotent, and two characters fold together exactly when they are equal or an upper-case letter and its lower-case partner |
| Integrity.Dangling | asm.py:324 | the occurrence's sequence id is not among the ids of `AsmSequence` (the first check of `IntegrityCheck`, with `ResolvedStoreHasNoDanglingSequence` as its partner) |
| Integrity.RepNopInMnemonicCode | asm.py:329 | MNEMONIC 1 and code containing `rep; nop` or `rep;nop` up to case; a NULL column fails (the second check of `IntegrityCheck`, shown on examples in `LikeExamples`) |
| Integrity.ByteInMnemonicCode | asm.py:332 | code containing `.byte` up to case and MNEMONIC 1 (the third check of `IntegrityCheck`) |
| Integrity.JumpNotControlFlow | asm.py:335 | an instruction whose text starts with `j` or `J` and whose CONTROL_FLOW is 0 (the fourth check of `IntegrityCheck`) |
| Github.NameRun | asm.py:133 | the greedy `[a-zA-Z0-9-_]*` run: every character in it is a name character, and the next one is not |
| Github.MatchesGithubPattern | asm.py:133 | the prefix match of `https://github.com/([a-zA-Z0-9-_]*)/[a-zA-Z0-9-_]*`; `MatchOfGithubUrl` and `GithubUrlOfMatch` prove it holds exactly for `https://github?com/<name>/<anything>` |
| Github.OwnerProject | asm.py:130-139 | a result exactly when the URL matches the pattern, and then neither field contains `/` |
| Github.MatchOfGithubUrl | asm.py:133 | every `https://github?com/<name>/<anything>` with a non-newline `?` matches the pattern |
| Github.GithubUrlOfMatch | asm.py:133 | every matching URL has that shape |
| Github.OwnerProjectOfGithubUrl | asm.py:130-139 | for `https://github.com/<owner>/<project>` with name-character owner and project, the pair returned is exactly `(owner, project)` |
| Github.OwnerProjectExample | asm.py:131-132 | `https://github.com/graalvm/sulong` gives `(graalvm, sulong)` |
| Github.OwnerProjectWithMorePath | asm.py:136-139 | with more path after the match, the last two fields are returned |
| Github.OwnerProjectTrailingSlash | asm.py:136-139 | with a trailing `/`, `(sulong, "")` is returned |
| Github.OwnerProjectRefusesOtherHost | asm.py:133-135 | a `gitlab.com` URL is refused |
| Github.OwnerProjectEndsUrl | asm.py:136-139 | every matching URL ends with `/<owner>/<project>` for the pair it yields |
| Github.PathJoin | asm.py:92 | POSIX `os.path.join`: the second part always ends the result; an absolute second part is the whole result; otherwise the first part starts it, and between the two there is a single `/` when the first part is nonempty and does not end with `/`, and nothing otherwise |
| Github.ProjectDir | asm.py:88-93 | a directory exactly when the URL matches the GitHub pattern |
| Github.ProjectDirOfGithubUrl | asm.py:88-93 | `https://github.com/<owner>/<project>` maps to `<projects>/<owner>-<project>` |
| Cloc.SpaceRun | asm.py:116 | the greedy `\s+` run: all whitespace, and the next character is not |
| Cloc.DigitRun | asm.py:116 | the greedy `\d+` run: all digits, and the next character is not |
| Cloc.Fields | asm.py:116 | a match of the `\s+\d+` columns starts with whitespace |
| Cloc.Match | asm.py:116-127 | `re.match` of one language's pattern on a line; `MatchLeads`, `MatchesOneLanguage` and `MatchOfRow` give its meaning |
| Cloc.LastMatch | asm.py:115-127 | the count after the loop is 0 or the code column of some line that matches the pattern |
| Cloc.DigitsValue | asm.py:118 | `int()` of `n` decimal digits is below `10^n` |
| Cloc.ClocCounts | asm.py:110-128 | each of the four counts is the code column of the last output line matching its pattern, and 0 when none matches |
| Cloc.LastMatchIsLastMatchingLine | asm.py:115-127 | the count is the value of the last matching line; later lines that do not match leave it |
| Cloc.LastMatchWithoutMatch | asm.py:111-114 | without a matching line the count stays 0 |
| Cloc.MatchesOneLanguage | asm.py:116-127 | no line is counted for two languages (`C` needs whitespace after it, `C++` a `+`, the header pattern a `/`) |
| Cloc.MatchOfRow | asm.py:116-127 | a row cloc prints for a language (label, then files, blank, comment and code columns after whitespace) is read as that language's code count, whatever the spacing and the text after it |
| Cloc.DigitsValueOfShow | asm.py:118 | `int()` of the decimal rendering of `n` is `n` |
| Cloc.Show | asm.py:118 | a decimal rendering is a nonempty string of digits |
| Strings.StartsWith | asm.py:82 | `str.startswith`: the prefix is the first characters of the string; also the prefix test `re.match` makes (asm.py:178-179) |
| Strings.Split | asm.py:189 | `str.split` with one separator: at least one field, no field contains the separator, and every character of a field comes from the string |
| Strings.Join | asm.py:219 | `sep.join(parts)`; `JoinSplit`, `SplitJoin` and `JoinSeparators` give its meaning |
| Strings.JoinSplit | asm.py:189 | joining the fields of a split gives back the string |
| Strings.SplitJoin | asm.py:189 | splitting a join of separator-free parts gives back the parts |
| Strings.JoinSeparators | asm.py:219 | between separator-free parts the join puts exactly one separator each |
| Strings.Replace | asm.py:189 | `str.replace` of one character: same length, each occurrence of the old character becomes the new one and every other character stays |
| Stats.Total | asm.py:479 | `SUM(NR_OCCURRENCES)` is NULL exactly when there are no rows |
| Stats.SumOccurrences | asm.py:479 | the sum of the rows' occurrences is at least the occurrences of every row |
| Stats.TotalCountsRows | asm.py:479-483 | the total is at least the number of rows unless some row has no occurrences |
| Stats.DistinctSequencesAtMostRows | asm.py:481-483 | the distinct-sequence count is at most the row count, and equal when no sequence occurs in two rows |
| Stats.DistinctSequences | asm.py:481 | `COUNT(DISTINCT ASM_SEQUENCE_ID)`, the size of the set of sequences of the rows; bounded by `DistinctSequencesAtMostRows` |
| Stats.RowCount | asm.py:483 | `COUNT(ASM_SEQUENCE_ID)`: every row has a sequence, so each row counts once |
| Stats.ProjectSum | asm.py:501 | a project's sum is positive only when some row of that project has occurrences |
| Stats.ProjectSumAtMostSum | asm.py:501 | no project's sum exceeds the total |
| Stats.MaxProjectSumOver | asm.py:501 | the maximum is the sum of one of the projects, and at least that of every project |
| Stats.MaxProjectSum | asm.py:501 | `MAX(...)` is NULL exactly when there are no rows |
| Stats.MaxProjectSumIsMaximum | asm.py:501 | the maximum per-project sum is attained by a project of the rows, bounds every project's sum and never exceeds the total |
| Stats.NonMnemonicProjectsBounded | asm.py:506 | the non-mnemonic project count is at most the number of projects, and 0 exactly when no row has MNEMONIC 0 (a NULL flag is not 0) |
| Stats.NonMnemonicProjects | asm.py:506 | `COUNT(DISTINCT GITHUB_PROJECT_ID) ... WHERE MNEMONIC = 0`, the size of the set of projects with a MNEMONIC-0 row; bounded by `NonMnemonicProjectsBounded` |

## Left out

- Process and network I/O is not modelled: the `git` calls, `git clone`, starting `cloc`, `clang-format`, the GitHub API request, `grep.sh`, file output and every `print`. Where an operation needs their output, it becomes a parameter:
  - the formatted test case of `AddInstruction`;
  - the origin URL of `AddSequenceInProject`;
  - the `cloc` output of `ClocCounts`;
  - the projects directory of `ProjectDir`.
- `get_git_url` is modelled only through its `https://github.com` prefix check, which both `InsertProjectEntry` and `AddSequenceInProject` make. Running git is I/O: both take the origin URL as a parameter, already stripped of its newline.
- `os.path.realpath` and the absolute checkout path in `add_asm_sequence_in_project` are not modelled: the second path component only has to exist.
- Catalog.Database.InsertProjectEntry: stores only the name and the URL of the row. The directory check, the git, `cloc` and GitHub metrics and the dates of `insert_project_entry` come from I/O and are left out; the origin URL is a parameter.
- Argument parsing and command dispatch are left out, because they are command-line plumbing. So are SQLite commits and transactions.
- The schema is not part of the source files. The defaults of CONTROL_FLOW, CODE and MNEMONIC are a parameter of the store (`ColumnDefaults`).
- Each table numbers its rows on its own, as SQLite rowids do. A shared counter is not modelled.
- `show_stats` is modelled only through its integer aggregates, over a list of rows of the analysed-occurrences view. The following are left out:
  - the view's definition, which is not part of the source files;
  - averages, medians and percentages, which are floating point;
  - the LaTeX tables and the scatter-plot data.
- Stats.Total: besides "NULL exactly when empty", its contract states only a lower bound on the sum. The sum itself is the recursive definition `SumOccurrences`.
- Categories.Listing: descends at most as many levels as there are categories. The program descends only from top-level categories, so categories on a cycle of SUPER_ID links are never reached, by the program or by the model. With distinct ids no chain below a top-level category is longer than the table, so the bound never cuts the listing (`ListingVisitsOfDistinctIds`, `ListedDepthBelowCount`).
- Categories.Walk: does not model Python's recursion limit. `print_sub_cat` calls itself once per level, so a chain of about 1000 nested categories raises `RecursionError` at the default limit, even with distinct ids; the model lists the whole chain. With repeated ids the program can recurse until that limit, and the model stops at the depth bound.
- `\s` and `\d` in the cloc patterns are ASCII whitespace and ASCII digits. Python's `re` also accepts other Unicode whitespace and digits.
- The integrity pass stops at the first failing check, as the code does. It does not collect a report of all failures.
- The messages the program prints before it stops (for example "rep nop with MNEMONIC = 0", which names the wrong flag value) are not modelled; only which check fails is.
- The `test-cases/*.c` files are inline-assembly test programs that `asm.py` only stores as text, so they are not modelled.
