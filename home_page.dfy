/** The list logic of the home page: the category tabs derived from the user's
    skills, the skills shown under the selected tab, removal of a deleted skill,
    and whether the selected category's name is shown. */
module HomePage {
  import opened Wrappers
  import opened Sequences

  /** A skill record as the page holds it; `category` is optional. Instants are ms. */
  datatype Skill = Skill(id: string, name: string, category: Option<string>, nextReviewDate: int, createdAt: int, userId: string)

  /** The tab value meaning "every skill". */
  const AllTab: string := "all"
  /** The tab value of the category picker. */
  const CategorySelectTab: string := "category-select"

  /** `filter(Boolean)` on a category: present and not the empty string. */
  predicate HasCategory(s: Skill) {
    s.category.Some? && s.category.value != ""
  }

  /** `skills.map(s => s.category).filter(Boolean)`. */
  function CategoryValues(skills: seq<Skill>): (cs: seq<string>)
    ensures forall k :: 0 <= k < |cs| ==> cs[k] != ""
    ensures forall c :: c in cs <==> c != "" && exists k :: 0 <= k < |skills| && skills[k].category == Some(c)
    decreases |skills|
  {
    if skills == [] then []
    else
      var rest := CategoryValues(skills[1..]);
      assert forall k :: 1 <= k < |skills| ==> skills[k] == skills[1..][k - 1];
      if HasCategory(skills[0]) then [skills[0].category.value] + rest else rest
  }

  /** `Array.from(new Set(...))` of the category values: the category tabs. */
  function Categories(skills: seq<Skill>): (cats: seq<string>)
    ensures NoDuplicates(cats)
    ensures forall k :: 0 <= k < |cats| ==> cats[k] != ""
    ensures forall c :: c in cats <==> c != "" && exists k :: 0 <= k < |skills| && skills[k].category == Some(c)
  {
    Dedupe(CategoryValues(skills))
  }

  /** Index of the first skill carrying category `c`. */
  function FirstSkillWithCategory(skills: seq<Skill>, c: string): (k: nat)
    requires exists k :: 0 <= k < |skills| && skills[k].category == Some(c)
    ensures k < |skills| && skills[k].category == Some(c)
    ensures forall j :: 0 <= j < k ==> skills[j].category != Some(c)
    decreases |skills|
  {
    if skills[0].category == Some(c) then 0
    else
      assert exists k :: 0 <= k < |skills[1..]| && skills[1..][k].category == Some(c) by {
        var k :| 0 <= k < |skills| && skills[k].category == Some(c);
        assert skills[1..][k - 1] == skills[k];
      }
      1 + FirstSkillWithCategory(skills[1..], c)
  }

  /** Category values, counted up to the first skill with `c`, place `c` at the
      same rank in the category list as that skill holds among skills with a
      category: the two orders agree. */
  lemma {:induction false} FirstIndexInCategoryValues(skills: seq<Skill>, c: string, d: string)
    requires c != "" && d != ""
    requires exists k :: 0 <= k < |skills| && skills[k].category == Some(c)
    requires exists k :: 0 <= k < |skills| && skills[k].category == Some(d)
    requires FirstSkillWithCategory(skills, c) < FirstSkillWithCategory(skills, d)
    ensures c in CategoryValues(skills) && d in CategoryValues(skills)
    ensures FirstIndex(CategoryValues(skills), c) < FirstIndex(CategoryValues(skills), d)
    decreases |skills|
  {
    var cs := CategoryValues(skills);
    if skills[0].category == Some(c) {
      assert cs[0] == c;
    } else {
      var tail := skills[1..];
      assert exists k :: 0 <= k < |tail| && tail[k].category == Some(c) by {
        var k := FirstSkillWithCategory(skills, c);
        assert tail[k - 1] == skills[k];
      }
      assert exists k :: 0 <= k < |tail| && tail[k].category == Some(d) by {
        var k := FirstSkillWithCategory(skills, d);
        assert tail[k - 1] == skills[k];
      }
      FirstIndexInCategoryValues(tail, c, d);
      if HasCategory(skills[0]) {
        assert cs == [skills[0].category.value] + CategoryValues(tail);
        assert skills[0].category != Some(d);
        FirstIndexAfterHead(skills[0].category.value, CategoryValues(tail), c);
        FirstIndexAfterHead(skills[0].category.value, CategoryValues(tail), d);
      }
    }
  }

  lemma FirstIndexAfterHead(h: string, t: seq<string>, x: string)
    requires x in t && x != h
    ensures FirstIndex([h] + t, x) == 1 + FirstIndex(t, x)
  {
    assert ([h] + t)[1..] == t;
  }

  /** The category tabs keep the order in which their categories first appear
      among the skills. */
  lemma CategoriesInFirstAppearanceOrder(skills: seq<Skill>, a: nat, b: nat)
    requires a < b < |Categories(skills)|
    ensures FirstSkillWithCategory(skills, Categories(skills)[a]) < FirstSkillWithCategory(skills, Categories(skills)[b])
  {
    var cats, cs := Categories(skills), CategoryValues(skills);
    var c, d := cats[a], cats[b];
    DedupeKeepsFirstAppearanceOrder(cs);
    assert FirstIndex(cs, c) < FirstIndex(cs, d);
    var fc, fd := FirstSkillWithCategory(skills, c), FirstSkillWithCategory(skills, d);
    assert c != d;
    if fd < fc {
      FirstIndexInCategoryValues(skills, d, c);
    }
  }

  /** `filteredSkills`: every skill under the "all" tab, otherwise the skills whose
      category equals the tab. */
  function FilteredSkills(skills: seq<Skill>, categoryTab: string): (shown: seq<Skill>)
    ensures categoryTab == AllTab ==> shown == skills
    ensures IsSubsequence(shown, skills)
    ensures categoryTab != AllTab ==> forall s :: s in shown <==> s in skills && s.category == Some(categoryTab)
    ensures categoryTab != AllTab ==> forall s: Skill :: s.category == Some(categoryTab) ==> multiset(shown)[s] == multiset(skills)[s]
  {
    if categoryTab == AllTab then
      SubsequenceRefl(skills);
      skills
    else
      var p := (s: Skill) => s.category == Some(categoryTab);
      FilterIsSubsequence(skills, p);
      forall s: Skill | s.category == Some(categoryTab)
        ensures multiset(Filter(skills, p))[s] == multiset(skills)[s]
      {
        FilterKeepsMultiplicity(skills, p, s);
      }
      Filter(skills, p)
  }

  lemma {:induction false} SubsequenceRefl(s: seq<Skill>)
    ensures IsSubsequence(s, s)
    decreases |s|
  {
    if s != [] {
      SubsequenceRefl(s[1..]);
    }
  }

  /** `handleSkillDeleted`: the skill list without any skill carrying the deleted id. */
  function RemoveSkill(skills: seq<Skill>, deletedId: string): (rest: seq<Skill>)
    ensures IsSubsequence(rest, skills)
    ensures forall s :: s in rest <==> s in skills && s.id != deletedId
    ensures forall s: Skill :: s.id != deletedId ==> multiset(rest)[s] == multiset(skills)[s]
  {
    var p := (s: Skill) => s.id != deletedId;
    FilterIsSubsequence(skills, p);
    forall s: Skill | s.id != deletedId
      ensures multiset(Filter(skills, p))[s] == multiset(skills)[s]
    {
      FilterKeepsMultiplicity(skills, p, s);
    }
    Filter(skills, p)
  }

  /** Deleting an id no skill carries changes nothing; deleting twice is deleting once. */
  lemma RemoveSkillAbsentOrRepeated(skills: seq<Skill>, deletedId: string)
    ensures (forall k :: 0 <= k < |skills| ==> skills[k].id != deletedId) ==> RemoveSkill(skills, deletedId) == skills
    ensures RemoveSkill(RemoveSkill(skills, deletedId), deletedId) == RemoveSkill(skills, deletedId)
  {
    var p := (s: Skill) => s.id != deletedId;
    assert RemoveSkill(skills, deletedId) == Filter(skills, p);
    if forall k :: 0 <= k < |skills| ==> skills[k].id != deletedId {
      FilterAllPass(skills, p);
    }
    FilterIdempotent(skills, p);
  }

  /** `showCategoryName`: a specific category is selected. */
  function ShowCategoryName(categoryTab: string): (shown: bool)
    ensures shown <==> categoryTab !in {AllTab, CategorySelectTab}
  {
    categoryTab != AllTab && categoryTab != CategorySelectTab
  }

  /** When a category name is shown, every shown skill belongs to that category. */
  lemma ShownCategoryMatchesSkills(skills: seq<Skill>, categoryTab: string)
    requires ShowCategoryName(categoryTab)
    ensures forall s :: s in FilteredSkills(skills, categoryTab) ==> s.category == Some(categoryTab)
  {
  }
}
