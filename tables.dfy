/** The rows of the SQLite tables that the catalog code reads and writes, the
    lookups it runs on them, and how SQLite numbers new rows. */
module Tables {
  import opened Wrappers

  /** A row of `AsmInstruction`: ID, INSTRUCTION, TEST_CASE, CONTROL_FLOW (None is NULL). */
  datatype AsmInstruction = AsmInstruction(id: nat, text: string, testCase: string, controlFlow: Option<bool>)

  /** A row of `AsmSequence`: ID, INSTRUCTIONS (the submitted text), COMPOUND_TEST_CASE, NOTE. */
  datatype AsmSequence = AsmSequence(id: nat, text: string, testCase: Option<string>, note: string)

  /** A row of `AsmSequenceInstruction`: INSTRUCTION_NUMBER, ASM_SEQUENCE_ID, ASM_INSTRUCTION_ID. */
  datatype AsmSequenceInstruction = AsmSequenceInstruction(position: nat, sequenceId: nat, instructionId: nat)

  /** A row of `ApplicationCategory`: ID, NAME, SUPER_ID (None is a top-level category). */
  datatype ApplicationCategory = ApplicationCategory(id: nat, name: string, parent: Option<nat>)

  /** A row of `ApplicationCategoriesPerProject`. */
  datatype CategoryOfProject = CategoryOfProject(categoryId: nat, projectId: nat)

  /** A row of `GithubProjectUnfiltered`, reduced to the columns this code reads. */
  datatype GithubProject = GithubProject(id: nat, name: string, url: string)

  /** A row of `AsmSequencesInGithubProjectUnfiltered`: IN_FILE, GITHUB_PROJECT_ID,
      ASM_SEQUENCE_ID, and the CODE and MNEMONIC columns the integrity pass reads. */
  datatype Occurrence = Occurrence(file: string, projectId: nat, sequenceId: nat, code: Option<string>, mnemonic: Option<int>)

  /** The index of the first row `fetchone()` sees for a key (rows in table order). */
  function IndexOf<K(==)>(keys: seq<K>, key: K): (r: Option<nat>)
    ensures r.Some? ==> r.value < |keys| && keys[r.value] == key && forall j :: 0 <= j < r.value ==> keys[j] != key
    ensures r.None? <==> key !in keys
  {
    if keys == [] then None
    else if keys[0] == key then Some(0)
    else match IndexOf(keys[1..], key)
      case None => None
      case Some(i) => Some(i + 1)
  }

  /** The rowid SQLite gives a new row of a table whose rowids are `ids`:
      one more than the largest, or 1 for an empty table. */
  function NextRowId(ids: seq<nat>): (r: nat)
    ensures r > 0
    ensures forall i :: 0 <= i < |ids| ==> ids[i] < r
  {
    if ids == [] then 1
    else
      var rest := NextRowId(ids[1..]);
      assert forall i :: 1 <= i < |ids| ==> ids[i] == ids[1..][i - 1];
      if ids[0] < rest then rest else ids[0] + 1
  }

  // Column projections.

  function InstructionIds(t: seq<AsmInstruction>): (r: seq<nat>)
    ensures |r| == |t| && forall i :: 0 <= i < |t| ==> r[i] == t[i].id
  {
    seq(|t|, i requires 0 <= i < |t| => t[i].id)
  }

  function InstructionTexts(t: seq<AsmInstruction>): (r: seq<string>)
    ensures |r| == |t| && forall i :: 0 <= i < |t| ==> r[i] == t[i].text
  {
    seq(|t|, i requires 0 <= i < |t| => t[i].text)
  }

  function SequenceIds(t: seq<AsmSequence>): (r: seq<nat>)
    ensures |r| == |t| && forall i :: 0 <= i < |t| ==> r[i] == t[i].id
  {
    seq(|t|, i requires 0 <= i < |t| => t[i].id)
  }

  function SequenceTexts(t: seq<AsmSequence>): (r: seq<string>)
    ensures |r| == |t| && forall i :: 0 <= i < |t| ==> r[i] == t[i].text
  {
    seq(|t|, i requires 0 <= i < |t| => t[i].text)
  }

  function CategoryIds(t: seq<ApplicationCategory>): (r: seq<nat>)
    ensures |r| == |t| && forall i :: 0 <= i < |t| ==> r[i] == t[i].id
  {
    seq(|t|, i requires 0 <= i < |t| => t[i].id)
  }

  function CategoryNames(t: seq<ApplicationCategory>): (r: seq<string>)
    ensures |r| == |t| && forall i :: 0 <= i < |t| ==> r[i] == t[i].name
  {
    seq(|t|, i requires 0 <= i < |t| => t[i].name)
  }

  function ProjectIds(t: seq<GithubProject>): (r: seq<nat>)
    ensures |r| == |t| && forall i :: 0 <= i < |t| ==> r[i] == t[i].id
  {
    seq(|t|, i requires 0 <= i < |t| => t[i].id)
  }

  function ProjectUrls(t: seq<GithubProject>): (r: seq<string>)
    ensures |r| == |t| && forall i :: 0 <= i < |t| ==> r[i] == t[i].url
  {
    seq(|t|, i requires 0 <= i < |t| => t[i].url)
  }

  /** Row ids in table order are strictly increasing: table order is rowid order,
      which is the order SQLite's unordered SELECT returns them in. */
  ghost predicate Increasing(ids: seq<nat>)
  {
    forall i, j :: 0 <= i < j < |ids| ==> ids[i] < ids[j]
  }

  /** No two elements are equal (a primary key or a value the code keeps unique). */
  ghost predicate Distinct<K>(keys: seq<K>)
  {
    forall i, j :: 0 <= i < j < |keys| ==> keys[i] != keys[j]
  }

  /** Every `AsmSequenceInstruction` row names an existing sequence and instruction. */
  ghost predicate LinksResolve(links: seq<AsmSequenceInstruction>, sequences: seq<AsmSequence>, instructions: seq<AsmInstruction>)
  {
    forall k :: 0 <= k < |links| ==>
      links[k].sequenceId in SequenceIds(sequences) && links[k].instructionId in InstructionIds(instructions)
  }

  /** Every occurrence names an existing sequence and project. */
  ghost predicate OccurrencesResolve(occurrences: seq<Occurrence>, sequences: seq<AsmSequence>, projects: seq<GithubProject>)
  {
    forall k :: 0 <= k < |occurrences| ==>
      occurrences[k].sequenceId in SequenceIds(sequences) && occurrences[k].projectId in ProjectIds(projects)
  }

  /** Every category link names an existing category and project. */
  ghost predicate CategoryLinksResolve(links: seq<CategoryOfProject>, categories: seq<ApplicationCategory>, projects: seq<GithubProject>)
  {
    forall k :: 0 <= k < |links| ==>
      links[k].categoryId in CategoryIds(categories) && links[k].projectId in ProjectIds(projects)
  }

  /** The instruction table has a row with this id and this text. */
  ghost predicate HasInstruction(t: seq<AsmInstruction>, id: nat, text: string)
  {
    exists m :: 0 <= m < |t| && t[m].id == id && t[m].text == text
  }

  lemma InstructionIdResolves(t: seq<AsmInstruction>, id: nat, text: string)
    requires HasInstruction(t, id, text)
    ensures id in InstructionIds(t)
  {
    var m :| 0 <= m < |t| && t[m].id == id && t[m].text == text;
    assert InstructionIds(t)[m] == id;
  }

  /** `ids` names, for each token in order, an instruction with that text. */
  ghost predicate IdsSpell(t: seq<AsmInstruction>, ids: seq<nat>, tokens: seq<string>)
  {
    |ids| == |tokens| && forall j :: 0 <= j < |ids| ==> HasInstruction(t, ids[j], tokens[j])
  }

  lemma IdsSpellStep(before: seq<AsmInstruction>, after: seq<AsmInstruction>, ids: seq<nat>, tokens: seq<string>,
                     id: nat, token: string)
    requires IdsSpell(before, ids, tokens)
    requires |before| <= |after| && after[..|before|] == before
    requires HasInstruction(after, id, token)
    ensures IdsSpell(after, ids + [id], tokens + [token])
  {
    forall j | 0 <= j < |ids| ensures HasInstruction(after, ids[j], tokens[j]) {
      var m :| 0 <= m < |before| && before[m].id == ids[j] && before[m].text == tokens[j];
      assert after[m] == before[m];
    }
  }

  lemma IdsResolve(t: seq<AsmInstruction>, ids: seq<nat>, tokens: seq<string>)
    requires IdsSpell(t, ids, tokens)
    ensures forall j :: 0 <= j < |ids| ==> ids[j] in InstructionIds(t)
  {
    forall j | 0 <= j < |ids| ensures ids[j] in InstructionIds(t) {
      InstructionIdResolves(t, ids[j], tokens[j]);
    }
  }

  /** `links` are the links of sequence `sequenceId`, one per token in order: link `p`
      has position `p` and names the instruction whose text is token `p`. */
  ghost predicate LinksSpell(links: seq<AsmSequenceInstruction>, sequenceId: nat, tokens: seq<string>, instructions: seq<AsmInstruction>)
  {
    && |links| == |tokens|
    && forall p :: 0 <= p < |links| ==>
         && links[p].position == p
         && links[p].sequenceId == sequenceId
         && HasInstruction(instructions, links[p].instructionId, tokens[p])
  }

  /** `added` are instruction rows created for tokens that `known` did not hold,
      with an empty test case and the column default for CONTROL_FLOW. */
  ghost predicate CreatedFor(added: seq<AsmInstruction>, tokens: seq<string>, known: seq<AsmInstruction>, controlFlow: Option<bool>)
  {
    forall m :: 0 <= m < |added| ==>
      && added[m].text in tokens && added[m].text !in InstructionTexts(known)
      && added[m].testCase == "" && added[m].controlFlow == controlFlow
  }

  lemma CreatedForStep(known: seq<AsmInstruction>, before: seq<AsmInstruction>, after: seq<AsmInstruction>,
                       tokens: seq<string>, token: string, id: nat, controlFlow: Option<bool>)
    requires |known| <= |before| && before[..|known|] == known
    requires CreatedFor(before[|known|..], tokens, known, controlFlow)
    requires after == before
          || (token !in InstructionTexts(before) && after == before + [AsmInstruction(id, token, "", controlFlow)])
    ensures |known| <= |after| && after[..|known|] == known
    ensures CreatedFor(after[|known|..], tokens + [token], known, controlFlow)
  {
    var added := after[|known|..];
    forall m | 0 <= m < |added|
      ensures added[m].text in tokens + [token] && added[m].text !in InstructionTexts(known)
      ensures added[m].testCase == "" && added[m].controlFlow == controlFlow
    {
      if |known| + m < |before| {
        assert added[m] == before[|known|..][m];
      } else {
        assert added[m] == AsmInstruction(id, token, "", controlFlow);
        assert InstructionTexts(before)[..|known|] == InstructionTexts(known);
      }
    }
  }

  /** Links numbered from 0 that carry the ids of the tokens spell the tokens. */
  lemma LinksSpellOfIds(links: seq<AsmSequenceInstruction>, sequenceId: nat, ids: seq<nat>, tokens: seq<string>,
                        t: seq<AsmInstruction>)
    requires IdsSpell(t, ids, tokens)
    requires |links| == |ids|
    requires forall q :: 0 <= q < |ids| ==> links[q] == AsmSequenceInstruction(q, sequenceId, ids[q])
    ensures LinksSpell(links, sequenceId, tokens, t)
  {
  }

  /** The sequence table has a row with this id and this text. */
  ghost predicate HasSequence(t: seq<AsmSequence>, id: nat, text: string)
  {
    exists m :: 0 <= m < |t| && t[m].id == id && t[m].text == text
  }

  /** `select ID from ApplicationCategory where NAME = ?` with `fetchone()`: the id of
      the first category with this name, and `None` when no category has it. */
  function CategoryIdOf(t: seq<ApplicationCategory>, name: string): (r: Option<nat>)
    ensures r.None? <==> name !in CategoryNames(t)
    ensures r.Some? ==> exists m :: 0 <= m < |t| && t[m].id == r.value && t[m].name == name
                                     && forall j :: 0 <= j < m ==> t[j].name != name
  {
    match IndexOf(CategoryNames(t), name)
    case None => None
    case Some(m) => Some(t[m].id)
  }

  /** Appending rows does not change which category a name already present finds. */
  lemma CategoryIdOfKept(before: seq<ApplicationCategory>, after: seq<ApplicationCategory>, name: string)
    requires |before| <= |after| && after[..|before|] == before
    requires name in CategoryNames(before)
    ensures CategoryIdOf(after, name) == CategoryIdOf(before, name)
  {
    var ib := IndexOf(CategoryNames(before), name).value;
    var ia := IndexOf(CategoryNames(after), name).value;
    assert after[ib] == before[ib];
    assert CategoryNames(after)[ib] == name;
    assert ia <= ib;
    assert after[ia] == before[ia];
    assert CategoryNames(before)[ia] == name;
  }

  /** A category appended for a name no row had is the one that name finds. */
  lemma CategoryIdOfAppended(before: seq<ApplicationCategory>, c: ApplicationCategory)
    requires c.name !in CategoryNames(before)
    ensures CategoryIdOf(before + [c], c.name) == Some(c.id)
  {
    var after := before + [c];
    assert CategoryNames(after)[|before|] == c.name;
    forall j | 0 <= j < |before|
      ensures CategoryNames(after)[j] != c.name
    {
      assert CategoryNames(after)[j] == CategoryNames(before)[j];
    }
  }

  /** The rows of `t` from `start` on are top-level categories named after one of
      `names`, and none repeats the name of a row before it. */
  ghost predicate CategoriesCreatedFor(t: seq<ApplicationCategory>, start: nat, names: seq<string>)
  {
    forall m :: start <= m < |t| ==>
      && t[m].name in names && t[m].parent == None
      && forall j :: 0 <= j < m ==> t[j].name != t[m].name
  }

  /** `links` attach project `projectId` to one category per keyword, in order:
      link `k` names the first category called `keywords[k]`. */
  ghost predicate KeywordLinks(links: seq<CategoryOfProject>, projectId: nat, keywords: seq<string>, categories: seq<ApplicationCategory>)
  {
    && |links| == |keywords|
    && forall k :: 0 <= k < |links| ==>
         links[k].projectId == projectId && CategoryIdOf(categories, keywords[k]) == Some(links[k].categoryId)
  }

  lemma CategoriesCreatedForStep(before: seq<ApplicationCategory>, after: seq<ApplicationCategory>, start: nat,
                                 names: seq<string>, name: string, id: nat)
    requires start <= |before|
    requires CategoriesCreatedFor(before, start, names)
    requires after == before || (name !in CategoryNames(before) && after == before + [ApplicationCategory(id, name, None)])
    ensures CategoriesCreatedFor(after, start, names + [name])
  {
    forall m | start <= m < |after|
      ensures after[m].name in names + [name] && after[m].parent == None
      ensures forall j :: 0 <= j < m ==> after[j].name != after[m].name
    {
      if m < |before| {
        assert after[m] == before[m];
        assert forall j :: 0 <= j < m ==> after[j] == before[j];
      } else {
        forall j | 0 <= j < m ensures after[j].name != after[m].name {
          assert CategoryNames(before)[j] == before[j].name;
        }
      }
    }
  }

  lemma KeywordLinksStep(links: seq<CategoryOfProject>, projectId: nat, names: seq<string>,
                         before: seq<ApplicationCategory>, after: seq<ApplicationCategory>,
                         link: CategoryOfProject, name: string)
    requires KeywordLinks(links, projectId, names, before)
    requires |before| <= |after| && after[..|before|] == before
    requires link.projectId == projectId && CategoryIdOf(after, name) == Some(link.categoryId)
    ensures KeywordLinks(links + [link], projectId, names + [name], after)
  {
    forall k | 0 <= k < |links|
      ensures CategoryIdOf(after, names[k]) == Some(links[k].categoryId)
    {
      CategoryIdOfKept(before, after, names[k]);
    }
  }

  /** One keyword of `add_keywords_to_project` keeps the loop's facts: the tables keep
      their prefixes, the categories created and the links appended so far account for
      the keywords so far plus this one. */
  lemma AttachKeywordStep(c0: seq<ApplicationCategory>, cBefore: seq<ApplicationCategory>, cAfter: seq<ApplicationCategory>,
                          l0: seq<CategoryOfProject>, lBefore: seq<CategoryOfProject>, lAfter: seq<CategoryOfProject>,
                          projectId: nat, names: seq<string>, name: string, categoryId: nat)
    requires |c0| <= |cBefore| && cBefore[..|c0|] == c0 && CategoriesCreatedFor(cBefore, |c0|, names)
    requires |l0| <= |lBefore| && lBefore[..|l0|] == l0 && KeywordLinks(lBefore[|l0|..], projectId, names, cBefore)
    requires cAfter == cBefore || (name !in CategoryNames(cBefore) && cAfter == cBefore + [ApplicationCategory(categoryId, name, None)])
    requires CategoryIdOf(cAfter, name) == Some(categoryId)
    requires lAfter == lBefore + [CategoryOfProject(categoryId, projectId)]
    ensures |c0| <= |cAfter| && cAfter[..|c0|] == c0 && CategoriesCreatedFor(cAfter, |c0|, names + [name])
    ensures |l0| <= |lAfter| && lAfter[..|l0|] == l0 && KeywordLinks(lAfter[|l0|..], projectId, names + [name], cAfter)
  {
    assert cAfter[..|cBefore|] == cBefore;
    assert cAfter[..|c0|] == cBefore[..|c0|];
    CategoriesCreatedForStep(cBefore, cAfter, |c0|, names, name, categoryId);
    KeywordLinksStep(lBefore[|l0|..], projectId, names, cBefore, cAfter, CategoryOfProject(categoryId, projectId), name);
    assert lAfter[|l0|..] == lBefore[|l0|..] + [CategoryOfProject(categoryId, projectId)];
    assert lAfter[..|l0|] == lBefore[..|l0|];
  }

  lemma CategoryIdResolves(t: seq<ApplicationCategory>, id: nat, name: string)
    requires CategoryIdOf(t, name) == Some(id)
    ensures id in CategoryIds(t)
  {
    var m :| 0 <= m < |t| && t[m].id == id && t[m].name == name && forall j :: 0 <= j < m ==> t[j].name != name;
    assert CategoryIds(t)[m] == id;
  }
}
