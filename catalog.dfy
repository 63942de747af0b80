/** The inline-assembly catalog held in the SQLite database, with the operations
    of asm.py that add instructions, sequences, occurrences, projects and
    application categories to it. Each table is a sequence of rows in table order. */
module Catalog {
  import opened Wrappers
  import opened Strings
  import opened Validation
  import opened Tables
  import Github

  /** Values the schema gives columns that these operations never write. */
  datatype ColumnDefaults = ColumnDefaults(controlFlow: Option<bool>, code: Option<string>, mnemonic: Option<int>)

  /** What `add_asm_sequence` did. */
  datatype SequenceOutcome =
    | AlreadyPresent          // a sequence with this exact text exists: nothing was stored
    | Rejected(problem: Invalid)  // a token broke a format rule: the program stops, nothing stored
    | Added(id: nat)          // a new sequence row with this id

  /** Why an operation stopped the program (an `exit(-1)` or an uncaught exception). */
  datatype StoreError =
    | NotUnderProjects            // the file path does not start with `projects`
    | NoProjectDirectory          // the path has no component after `projects`
    | NotGithubUrl(url: string)   // the checkout's origin is not on github.com
    | NotProjectUrl(url: string)  // the origin does not match the GitHub project pattern
    | UnknownProject(url: string) // no project row has this URL
    | InvalidInstruction(problem: Invalid)

  /** The tables after a new sequence `id` with `text` was stored over the tables
      `i0`, `l0`, `s0`: the old rows are kept, one sequence row with a fresh id is
      appended, the new links spell the tokens of the text in order, and the new
      instructions are exactly the missing tokens. */
  ghost predicate SequenceStored(i0: seq<AsmInstruction>, l0: seq<AsmSequenceInstruction>, s0: seq<AsmSequence>,
                                 instructions: seq<AsmInstruction>, links: seq<AsmSequenceInstruction>, sequences: seq<AsmSequence>,
                                 id: nat, text: string, testCase: Option<string>, note: string, controlFlow: Option<bool>)
  {
    && id !in SequenceIds(s0)
    && sequences == s0 + [AsmSequence(id, text, testCase, note)]
    && |l0| <= |links| && links[..|l0|] == l0
    && LinksSpell(links[|l0|..], id, Tokens(text), instructions)
    && |i0| <= |instructions| && instructions[..|i0|] == i0
    && CreatedFor(instructions[|i0|..], Tokens(text), i0, controlFlow)
  }

  class Database {
    var instructions: seq<AsmInstruction>
    var sequences: seq<AsmSequence>
    var sequenceInstructions: seq<AsmSequenceInstruction>
    var categories: seq<ApplicationCategory>
    var categoriesPerProject: seq<CategoryOfProject>
    var projects: seq<GithubProject>
    var occurrences: seq<Occurrence>
    const defaults: ColumnDefaults

    /** Primary keys are distinct, instruction and sequence texts are unique
        (the code looks them up before inserting), category rows stand in rowid
        order (new rows get the next rowid), and every reference resolves. */
    ghost predicate Valid()
      reads this
    {
      && Distinct(InstructionIds(instructions)) && Distinct(InstructionTexts(instructions))
      && Distinct(SequenceIds(sequences)) && Distinct(SequenceTexts(sequences))
      && Distinct(CategoryIds(categories)) && Increasing(CategoryIds(categories))
      && Distinct(ProjectIds(projects))
      && LinksResolve(sequenceInstructions, sequences, instructions)
      && OccurrencesResolve(occurrences, sequences, projects)
      && CategoryLinksResolve(categoriesPerProject, categories, projects)
    }

    /** A database whose only rows are the pre-seeded application categories. */
    constructor (defaults: ColumnDefaults, seeded: seq<ApplicationCategory>)
      requires Increasing(CategoryIds(seeded))
      ensures Valid()
      ensures this.defaults == defaults && categories == seeded
      ensures instructions == [] && sequences == [] && sequenceInstructions == []
      ensures categoriesPerProject == [] && projects == [] && occurrences == []
    {
      this.defaults := defaults;
      instructions, sequences, sequenceInstructions := [], [], [];
      categories, categoriesPerProject := seeded, [];
      projects, occurrences := [], [];
    }

    /** `add_asm_instruction(instr, testcase)`: `testCase` is the already formatted test
        case, or None when no file was given (stored as the empty string). An existing
        instruction with this text gets the new test case; otherwise a row is inserted. */
    method AddInstruction(text: string, testCase: Option<string>)
      requires Valid()
      modifies this`instructions
      ensures Valid()
      ensures var tc := testCase.GetOr("");
        match IndexOf(InstructionTexts(old(instructions)), text)
        case Some(i) => instructions == old(instructions)[i := old(instructions)[i].(testCase := tc)]
        case None => instructions == old(instructions) + [AsmInstruction(NextRowId(InstructionIds(old(instructions))), text, tc, defaults.controlFlow)]
      ensures exists i :: 0 <= i < |instructions| && instructions[i].text == text && instructions[i].testCase == testCase.GetOr("")
      ensures forall i :: 0 <= i < |old(instructions)| && old(instructions)[i].text != text ==> instructions[i] == old(instructions)[i]
    {
      var tc := testCase.GetOr("");
      var found := IndexOf(InstructionTexts(instructions), text);
      if found.None? {
        var id := NextRowId(InstructionIds(instructions));
        ghost var before := instructions;
        instructions := instructions + [AsmInstruction(id, text, tc, defaults.controlFlow)];
        assert InstructionIds(instructions) == InstructionIds(before) + [id];
        assert instructions[|before|].text == text;
      } else {
        var i := found.value;
        ghost var before := instructions;
        instructions := instructions[i := instructions[i].(testCase := tc)];
        assert InstructionIds(instructions) == InstructionIds(before);
        assert InstructionTexts(instructions) == InstructionTexts(before);
      }
    }

    /** `insert_project_entry(dirname)`, reduced to the name and URL of the row it
        inserts. `gitUrl` stands for what `git config --get remote.origin.url` prints
        in the checkout. The URL must start with `https://github.com` and match the
        GitHub pattern; the project name stored is its last `/` field. */
    method InsertProjectEntry(gitUrl: string) returns (r: Result<nat, StoreError>)
      requires Valid()
      modifies this`projects
      ensures Valid()
      ensures if !StartsWith(gitUrl, "https://github.com") then r == Err(NotGithubUrl(gitUrl))
              else if !Github.MatchesGithubPattern(gitUrl) then r == Err(NotProjectUrl(gitUrl))
              else r.Ok?
      ensures r.Err? ==> projects == old(projects)
      ensures r.Ok? ==>
        && r.value !in ProjectIds(old(projects))
        && projects == old(projects) + [GithubProject(r.value, Github.OwnerProject(gitUrl).value.1, gitUrl)]
    {
      if !StartsWith(gitUrl, "https://github.com") {
        return Err(NotGithubUrl(gitUrl));
      }
      var ownerProject := Github.OwnerProject(gitUrl);
      if ownerProject.None? {
        return Err(NotProjectUrl(gitUrl));
      }
      var id := NextRowId(ProjectIds(projects));
      ghost var before := projects;
      projects := projects + [GithubProject(id, ownerProject.value.1, gitUrl)];
      assert ProjectIds(projects) == ProjectIds(before) + [id];
      r := Ok(id);
    }
  
    /** `add_asm_sequence(instrs, testcase, note)`. A sequence whose exact text is
        already stored is skipped before anything else happens. Otherwise the text is
        cut into tokens, every token is checked (any invalid token stops the program
        before anything is stored), each token is looked up and, when absent, added as
        an instruction without test case, and finally the sequence row and one link per
        token, numbered from 0, are appended. */
    method AddSequence(text: string, testCase: Option<string>, note: string) returns (r: SequenceOutcome)
      requires Valid()
      modifies this`instructions, this`sequences, this`sequenceInstructions
      ensures Valid()
      ensures r.AlreadyPresent? <==> text in SequenceTexts(old(sequences))
      ensures r.Rejected? <==> text !in SequenceTexts(old(sequences)) && FirstInvalid(Tokens(text)).Some?
      ensures r.Rejected? ==> r.problem == FirstInvalid(Tokens(text)).value
      ensures !r.Added? ==> instructions == old(instructions) && sequences == old(sequences) && sequenceInstructions == old(sequenceInstructions)
      ensures r.Added? ==>
        SequenceStored(old(instructions), old(sequenceInstructions), old(sequences),
                       instructions, sequenceInstructions, sequences, r.id, text, testCase, note, defaults.controlFlow)
    {
      if text in SequenceTexts(sequences) {
        return AlreadyPresent;
      }
      var tokens := Tokens(text);
      var invalid := FirstInvalid(tokens);
      if invalid.Some? {
        return Rejected(invalid.value);
      }
      var id := StoreSequence(text, testCase, note);
      r := Added(id);
    }

    /** The `insert into AsmSequence` of `add_asm_sequence`. */
    method InsertSequence(text: string, testCase: Option<string>, note: string) returns (id: nat)
      requires Valid()
      requires text !in SequenceTexts(sequences)
      modifies this`sequences
      ensures Valid()
      ensures id !in SequenceIds(old(sequences))
      ensures sequences == old(sequences) + [AsmSequence(id, text, testCase, note)]
    {
      id := NextRowId(SequenceIds(sequences));
      ghost var s0 := sequences;
      sequences := sequences + [AsmSequence(id, text, testCase, note)];
      assert SequenceIds(sequences) == SequenceIds(s0) + [id];
      assert SequenceTexts(sequences) == SequenceTexts(s0) + [text];
    }

    /** The part of `add_asm_sequence` after the checks: the instructions, the
        sequence row and its links. */
    method StoreSequence(text: string, testCase: Option<string>, note: string) returns (id: nat)
      requires Valid()
      requires text !in SequenceTexts(sequences) && FirstInvalid(Tokens(text)).None?
      modifies this`instructions, this`sequences, this`sequenceInstructions
      ensures Valid()
      ensures SequenceStored(old(instructions), old(sequenceInstructions), old(sequences),
                             instructions, sequenceInstructions, sequences, id, text, testCase, note, defaults.controlFlow)
    {
      var tokens := Tokens(text);
      var ids := ResolveTokens(tokens);
      id := InsertSequence(text, testCase, note);
      assert SequenceIds(sequences)[|sequences| - 1] == id;
      IdsResolve(instructions, ids, tokens);
      ghost var l0 := sequenceInstructions;
      AppendLinks(id, ids);
      ghost var links := sequenceInstructions[|l0|..];
      assert forall q :: 0 <= q < |ids| ==> links[q] == sequenceInstructions[|l0| + q];
      LinksSpellOfIds(links, id, ids, tokens, instructions);
    }

    /** The loop of `add_asm_sequence` that collects the instruction id of every token,
        adding an instruction (with an empty test case) for each token not yet known. */
    method ResolveTokens(tokens: seq<string>) returns (ids: seq<nat>)
      requires Valid()
      modifies this`instructions
      ensures Valid()
      ensures IdsSpell(instructions, ids, tokens)
      ensures |old(instructions)| <= |instructions| && instructions[..|old(instructions)|] == old(instructions)
      ensures CreatedFor(instructions[|old(instructions)|..], tokens, old(instructions), defaults.controlFlow)
    {
      ghost var i0 := instructions;
      ids := [];
      var k := 0;
      while k < |tokens|
        invariant Valid()
        invariant 0 <= k <= |tokens|
        invariant |i0| <= |instructions| && instructions[..|i0|] == i0
        invariant IdsSpell(instructions, ids, tokens[..k])
        invariant CreatedFor(instructions[|i0|..], tokens[..k], i0, defaults.controlFlow)
      {
        ghost var before := instructions;
        var id := ResolveToken(tokens[k]);
        IdsSpellStep(before, instructions, ids, tokens[..k], id, tokens[k]);
        CreatedForStep(i0, before, instructions, tokens[..k], tokens[k], id, defaults.controlFlow);
        assert tokens[..k + 1] == tokens[..k] + [tokens[k]];
        ids := ids + [id];
        k := k + 1;
      }
      assert tokens[..k] == tokens;
    }

    /** One turn of that loop: the id of the instruction with this text, looked up
        again after adding the instruction when it was missing. */
    method ResolveToken(token: string) returns (id: nat)
      requires Valid()
      modifies this`instructions
      ensures Valid()
      ensures HasInstruction(instructions, id, token)
      ensures instructions == old(instructions)
           || (token !in InstructionTexts(old(instructions))
               && instructions == old(instructions) + [AsmInstruction(id, token, "", defaults.controlFlow)])
    {
      var found := IndexOf(InstructionTexts(instructions), token);
      if found.None? {
        ghost var before := instructions;
        AddInstruction(token, None);
        assert InstructionTexts(instructions) == InstructionTexts(before) + [token];
        found := IndexOf(InstructionTexts(instructions), token);
        assert found.value == |before|;
      }
      id := instructions[found.value].id;
    }

    /** The second loop of `add_asm_sequence`: one link per instruction id, with a
        running position that starts at 0. */
    method AppendLinks(sequenceId: nat, ids: seq<nat>)
      requires Valid()
      requires sequenceId in SequenceIds(sequences)
      requires forall j :: 0 <= j < |ids| ==> ids[j] in InstructionIds(instructions)
      modifies this`sequenceInstructions
      ensures Valid()
      ensures |sequenceInstructions| == |old(sequenceInstructions)| + |ids|
      ensures sequenceInstructions[..|old(sequenceInstructions)|] == old(sequenceInstructions)
      ensures forall q :: 0 <= q < |ids| ==>
        sequenceInstructions[|old(sequenceInstructions)| + q] == AsmSequenceInstruction(q, sequenceId, ids[q])
    {
      ghost var l0 := sequenceInstructions;
      var i := 0;
      while i < |ids|
        invariant 0 <= i <= |ids|
        invariant |sequenceInstructions| == |l0| + i && sequenceInstructions[..|l0|] == l0
        invariant forall q :: 0 <= q < i ==> sequenceInstructions[|l0| + q] == AsmSequenceInstruction(q, sequenceId, ids[q])
        invariant Valid()
      {
        sequenceInstructions := sequenceInstructions + [AsmSequenceInstruction(i, sequenceId, ids[i])];
        i := i + 1;
      }
    }
  
    /** `add_asm_sequence_in_project(sequence, filepath)`. `gitUrl` stands for what
        `git config --get remote.origin.url` prints in the checkout named by the path's
        second component. The path must start with `projects`; the project must be
        registered under the URL; the sequence is registered as by `AddSequence` with an
        empty test case; the stored file is the path from its third component on. */
    method AddSequenceInProject(text: string, filePath: string, gitUrl: string) returns (r: Result<nat, StoreError>)
      requires Valid()
      modifies this`instructions, this`sequences, this`sequenceInstructions, this`occurrences
      ensures Valid()
      ensures var parts := Split(filePath, '/');
        if parts[0] != "projects" then r == Err(NotUnderProjects)
        else if |parts| < 2 then r == Err(NoProjectDirectory)
        else if !StartsWith(gitUrl, "https://github.com") then r == Err(NotGithubUrl(gitUrl))
        else if gitUrl !in ProjectUrls(old(projects)) then r == Err(UnknownProject(gitUrl))
        else if text !in SequenceTexts(old(sequences)) && FirstInvalid(Tokens(text)).Some? then
          r == Err(InvalidInstruction(FirstInvalid(Tokens(text)).value))
        else r.Ok?
      ensures r.Err? ==>
        && instructions == old(instructions) && sequences == old(sequences)
        && sequenceInstructions == old(sequenceInstructions) && occurrences == old(occurrences)
      ensures r.Ok? ==>
        var parts := Split(filePath, '/');
        var project := old(projects)[IndexOf(ProjectUrls(old(projects)), gitUrl).value];
        && HasSequence(sequences, r.value, text)
        && occurrences == old(occurrences) + [Occurrence(Join(parts[2..], '/'), project.id, r.value, defaults.code, defaults.mnemonic)]
        && (text in SequenceTexts(old(sequences)) ==>
              instructions == old(instructions) && sequences == old(sequences) && sequenceInstructions == old(sequenceInstructions))
        && (text !in SequenceTexts(old(sequences)) ==>
              SequenceStored(old(instructions), old(sequenceInstructions), old(sequences),
                             instructions, sequenceInstructions, sequences, r.value, text, Some(""), "", defaults.controlFlow))
    {
      var parts := Split(filePath, '/');
      if parts[0] != "projects" {
        return Err(NotUnderProjects);
      }
      if |parts| < 2 {
        return Err(NoProjectDirectory);
      }
      if !StartsWith(gitUrl, "https://github.com") {
        return Err(NotGithubUrl(gitUrl));
      }
      var project := IndexOf(ProjectUrls(projects), gitUrl);
      if project.None? {
        return Err(UnknownProject(gitUrl));
      }
      var projectId := projects[project.value].id;
      assert projectId in ProjectIds(projects) by {
        assert ProjectIds(projects)[project.value] == projectId;
      }
      var added := AddSequence(text, Some(""), "");
      if added.Rejected? {
        return Err(InvalidInstruction(added.problem));
      }
      var found := IndexOf(SequenceTexts(sequences), text);
      assert found.Some? by {
        if added.Added? {
          assert SequenceTexts(sequences)[|sequences| - 1] == text;
        }
      }
      var sequenceId := sequences[found.value].id;
      assert sequenceId in SequenceIds(sequences) by {
        assert SequenceIds(sequences)[found.value] == sequenceId;
      }
      assert added.Added? ==> sequenceId == added.id by {
        if added.Added? {
          assert Distinct(SequenceTexts(sequences));
          assert SequenceTexts(sequences)[|sequences| - 1] == text;
        }
      }
      occurrences := occurrences + [Occurrence(Join(parts[2..], '/'), projectId, sequenceId, defaults.code, defaults.mnemonic)];
      r := Ok(sequenceId);
    }

    /** `insert_project_keyword(keyword)`: the id of the first category with exactly
        this name, or of a new top-level category with this name. */
    method InsertProjectKeyword(keyword: string) returns (id: nat)
      requires Valid()
      modifies this`categories
      ensures Valid()
      ensures CategoryIdOf(categories, keyword) == Some(id)
      ensures match IndexOf(CategoryNames(old(categories)), keyword)
        case Some(i) => categories == old(categories) && id == old(categories)[i].id
        case None => id !in CategoryIds(old(categories)) && categories == old(categories) + [ApplicationCategory(id, keyword, None)]
    {
      var found := IndexOf(CategoryNames(categories), keyword);
      if found.None? {
        id := NextRowId(CategoryIds(categories));
        ghost var before := categories;
        categories := categories + [ApplicationCategory(id, keyword, None)];
        assert CategoryIds(categories) == CategoryIds(before) + [id];
        CategoryIdOfAppended(before, ApplicationCategory(id, keyword, None));
      } else {
        id := categories[found.value].id;
      }
    }

    /** `add_keywords_to_project(url, keywords)`: looks up the project (an unknown URL
        stops the program), then for every comma-separated keyword gets or creates the
        category and appends a link, even when the same link is already stored. */
    method AddKeywordsToProject(url: string, keywords: string) returns (r: Result<nat, StoreError>)
      requires Valid()
      modifies this`categories, this`categoriesPerProject
      ensures Valid()
      ensures r.Err? <==> url !in ProjectUrls(old(projects))
      ensures r.Err? ==>
        r.error == UnknownProject(url) && categories == old(categories) && categoriesPerProject == old(categoriesPerProject)
      ensures r.Ok? ==>
        var keywordList, c0, l0 := Split(keywords, ','), old(categories), old(categoriesPerProject);
        && r.value == old(projects)[IndexOf(ProjectUrls(old(projects)), url).value].id
        && |c0| <= |categories| && categories[..|c0|] == c0
        && CategoriesCreatedFor(categories, |c0|, keywordList)
        && |l0| <= |categoriesPerProject| && categoriesPerProject[..|l0|] == l0
        && KeywordLinks(categoriesPerProject[|l0|..], r.value, keywordList, categories)
    {
      var keywordList := Split(keywords, ',');
      var found := IndexOf(ProjectUrls(projects), url);
      if found.None? {
        return Err(UnknownProject(url));
      }
      var projectId := projects[found.value].id;
      assert projectId in ProjectIds(projects) by {
        assert ProjectIds(projects)[found.value] == projectId;
      }
      AttachKeywords(projectId, keywordList);
      r := Ok(projectId);
    }

    /** The loop of `add_keywords_to_project` over the keywords, in order. */
    method AttachKeywords(projectId: nat, keywordList: seq<string>)
      requires Valid()
      requires projectId in ProjectIds(projects)
      modifies this`categories, this`categoriesPerProject
      ensures Valid()
      ensures |old(categories)| <= |categories| && categories[..|old(categories)|] == old(categories)
      ensures CategoriesCreatedFor(categories, |old(categories)|, keywordList)
      ensures |old(categoriesPerProject)| <= |categoriesPerProject|
      ensures categoriesPerProject[..|old(categoriesPerProject)|] == old(categoriesPerProject)
      ensures KeywordLinks(categoriesPerProject[|old(categoriesPerProject)|..], projectId, keywordList, categories)
    {
      ghost var c0, l0 := categories, categoriesPerProject;
      var k := 0;
      while k < |keywordList|
        invariant Valid()
        invariant 0 <= k <= |keywordList|
        invariant |c0| <= |categories| && categories[..|c0|] == c0
        invariant CategoriesCreatedFor(categories, |c0|, keywordList[..k])
        invariant |l0| <= |categoriesPerProject| && categoriesPerProject[..|l0|] == l0
        invariant KeywordLinks(categoriesPerProject[|l0|..], projectId, keywordList[..k], categories)
      {
        ghost var cBefore, lBefore := categories, categoriesPerProject;
        var categoryId := AttachKeyword(projectId, keywordList[k]);
        AttachKeywordStep(c0, cBefore, categories, l0, lBefore, categoriesPerProject,
                          projectId, keywordList[..k], keywordList[k], categoryId);
        assert keywordList[..k + 1] == keywordList[..k] + [keywordList[k]];
        k := k + 1;
      }
      assert keywordList[..k] == keywordList;
    }

    /** One turn of the loop in `add_keywords_to_project`: get or create the category
        and append the (category, project) link. */
    method AttachKeyword(projectId: nat, keyword: string) returns (categoryId: nat)
      requires Valid()
      requires projectId in ProjectIds(projects)
      modifies this`categories, this`categoriesPerProject
      ensures Valid()
      ensures CategoryIdOf(categories, keyword) == Some(categoryId)
      ensures categories == old(categories)
           || (keyword !in CategoryNames(old(categories)) && categories == old(categories) + [ApplicationCategory(categoryId, keyword, None)])
      ensures categoriesPerProject == old(categoriesPerProject) + [CategoryOfProject(categoryId, projectId)]
    {
      categoryId := InsertProjectKeyword(keyword);
      CategoryIdResolves(categories, categoryId, keyword);
      categoriesPerProject := categoriesPerProject + [CategoryOfProject(categoryId, projectId)];
    }
  }

  /** Registering the same text twice stores it once: a second `add_asm_sequence`
      finds the sequence the first one stored and skips it, and a rejected text is
      rejected again for the same token. */
  method AddSequenceTwice(db: Database, text: string, testCase: Option<string>, note: string)
    returns (first: SequenceOutcome, second: SequenceOutcome)
    requires db.Valid()
    modifies db`instructions, db`sequences, db`sequenceInstructions
    ensures db.Valid()
    ensures first.Added? || first.AlreadyPresent? ==> second == AlreadyPresent
    ensures first.Rejected? ==> second == first
    ensures !first.Added? ==>
      db.instructions == old(db.instructions) && db.sequences == old(db.sequences)
      && db.sequenceInstructions == old(db.sequenceInstructions)
    ensures first.Added? ==>
      SequenceStored(old(db.instructions), old(db.sequenceInstructions), old(db.sequences),
                     db.instructions, db.sequenceInstructions, db.sequences, first.id, text, testCase, note, db.defaults.controlFlow)
  {
    first := db.AddSequence(text, testCase, note);
    if first.Added? {
      assert SequenceTexts(db.sequences)[|db.sequences| - 1] == text;
    }
    second := db.AddSequence(text, testCase, note);
  }
}
