/**
 * Team classification of a member (`categorizeRole`): a hand-kept name table decides first;
 * otherwise the first keyword rule that matches the normalised role text wins, and a role
 * no rule matches goes to the Events Team.
 */
module Classifier {
  import opened Text
  import opened Model

  /** The curated officer table, keyed by lower-cased, trimmed name. */
  const ManualTeam: map<string, Category> := map[
    "nishant patil" := CoreTeam,
    "janumpally sushanth reddy" := CoreTeam,
    "rashmi k. murthy" := CoreTeam,
    "harsh pratap singh" := TechnicalTeam,
    "aditya kumar" := TechnicalTeam,
    "akanksha sagar kulkarni" := TechnicalTeam,
    "ashish manash" := WebsiteTeam,
    "bendi hema swaroop" := WebsiteTeam,
    "m lakshmi padmavathi" := WebsiteTeam,
    "neha ojha sikhwal" := ExecutiveTeam,
    "b sai eswar" := ExecutiveTeam,
    "gowtham b m" := ExecutiveTeam,
    "tejas s" := ExecutiveTeam
  ]

  /** The empty name is no key of the table (the source also skips an empty key before the lookup). */
  lemma NoEmptyKey()
    ensures "" !in ManualTeam
  {
  }

  const FacultyKeywords: seq<string> := ["faculty", "advisor", "professor", "head of department", "hod"]
  const CoreKeywords: seq<string> := ["convener", "executive"]
  const TechnicalKeywords: seq<string> := ["technical", "backend", "website", "web"]

  /** The table key for a name: lower-cased, then trimmed; so it has no upper-case letter and clean ends. */
  function CleanName(name: string): (key: string)
    ensures NoUpper(key) && Trimmed(key)
  {
    Trim(ToLower(name))
  }

  /** The role text the keyword rules read: the words of the lower-cased role, joined by single spaces. */
  function NormalizeRole(role: string): (r: string)
    ensures Collapsed(r)
    ensures r == Join(Words(ToLower(role)), ' ')
  {
    Squish(ToLower(role))
  }

  /** Some keyword of `keywords` occurs in `s`. */
  predicate ContainsAny(s: string, keywords: seq<string>) {
    exists k :: 0 <= k < |keywords| && Contains(s, keywords[k])
  }

  /** The keyword rules, tried in order on a normalised role. */
  function Heuristic(r: string): (c: Category)
    ensures c != WebsiteTeam && c != ExecutiveTeam
  {
    if ContainsAny(r, FacultyKeywords) then Faculty
    else if ContainsAny(r, CoreKeywords) then CoreTeam
    else if ContainsAny(r, TechnicalKeywords) then TechnicalTeam
    else EventsTeam
  }

  /**
   * The category of a member with role `role` and name `name`: the table's entry for a table
   * name, otherwise the keyword rules on the normalised role, which never give the Website
   * Team or the Executive Team.
   * This is the own-key lookup; `CategorizeRoleAsWritten` below is the plain-object lookup.
   */
  function CategorizeRole(role: string, name: string): (c: Category)
    ensures CleanName(name) in ManualTeam ==> c == ManualTeam[CleanName(name)]
    ensures c == WebsiteTeam || c == ExecutiveTeam ==> CleanName(name) in ManualTeam
  {
    var key := CleanName(name);
    NoEmptyKey();
    if key != [] && key in ManualTeam then ManualTeam[key]
    else Heuristic(NormalizeRole(role))
  }

  /** An independent reading of the rules: an ordered decision table scanned for the first hit. */
  datatype Rule = Rule(keywords: seq<string>, category: Category)

  const HeuristicRules: seq<Rule> := [
    Rule(FacultyKeywords, Faculty),
    Rule(CoreKeywords, CoreTeam),
    Rule(TechnicalKeywords, TechnicalTeam)
  ]

  function FirstMatch(rules: seq<Rule>, r: string, fallback: Category): (c: Category)
    ensures c == fallback || exists k :: 0 <= k < |rules| && rules[k].category == c
  {
    if rules == [] then fallback
    else if ContainsAny(r, rules[0].keywords) then rules[0].category
    else FirstMatch(rules[1..], r, fallback)
  }

  /** The if-chain and the decision table agree on every role text. */
  lemma HeuristicIsFirstMatch(r: string)
    ensures Heuristic(r) == FirstMatch(HeuristicRules, r, EventsTeam)
  {
    var rest := [Rule(CoreKeywords, CoreTeam), Rule(TechnicalKeywords, TechnicalTeam)];
    assert HeuristicRules[0] == Rule(FacultyKeywords, Faculty) && HeuristicRules[1..] == rest;
    assert rest[0] == Rule(CoreKeywords, CoreTeam) && rest[1..] == [Rule(TechnicalKeywords, TechnicalTeam)];
    var last := [Rule(TechnicalKeywords, TechnicalTeam)];
    assert last[0] == Rule(TechnicalKeywords, TechnicalTeam) && last[1..] == [];
    assert FirstMatch(last, r, EventsTeam)
        == if ContainsAny(r, TechnicalKeywords) then TechnicalTeam else EventsTeam;
    assert FirstMatch(rest, r, EventsTeam)
        == if ContainsAny(r, CoreKeywords) then CoreTeam else FirstMatch(last, r, EventsTeam);
  }

  /** Off the table, the classifier is the first-match reading of the decision table. */
  lemma CategorizeRoleIsDecisionTable(role: string, name: string)
    requires CleanName(name) !in ManualTeam
    ensures CategorizeRole(role, name) == FirstMatch(HeuristicRules, NormalizeRole(role), EventsTeam)
  {
    HeuristicIsFirstMatch(NormalizeRole(role));
  }

  /** A name in the table gets its table category, whatever the role says. */
  lemma ManualOverrideWins(role: string, name: string)
    requires CleanName(name) in ManualTeam
    ensures CategorizeRole(role, name) == ManualTeam[CleanName(name)]
  {
    assert CleanName(name) != [];
  }

  /** Without an override, the first matching rule decides, in the order Faculty, Core, Technical, Events. */
  lemma HeuristicOrder(role: string, name: string)
    requires CleanName(name) !in ManualTeam
    ensures var r, c := NormalizeRole(role), CategorizeRole(role, name);
      && (c == Faculty <==> ContainsAny(r, FacultyKeywords))
      && (c == CoreTeam <==> !ContainsAny(r, FacultyKeywords) && ContainsAny(r, CoreKeywords))
      && (c == TechnicalTeam <==>
            !ContainsAny(r, FacultyKeywords) && !ContainsAny(r, CoreKeywords) && ContainsAny(r, TechnicalKeywords))
      && (c == EventsTeam <==>
            !ContainsAny(r, FacultyKeywords) && !ContainsAny(r, CoreKeywords) && !ContainsAny(r, TechnicalKeywords))
  {
  }

  /** Website Team and Executive Team come only from the name table. */
  lemma OnlyTableGivesWebsiteOrExecutive(role: string, name: string)
    requires CategorizeRole(role, name) == WebsiteTeam || CategorizeRole(role, name) == ExecutiveTeam
    ensures CleanName(name) in ManualTeam && ManualTeam[CleanName(name)] == CategorizeRole(role, name)
  {
  }

  /** The `website` keyword never decides anything: any role containing it also contains `web`. */
  lemma TechnicalKeywordsReduce(r: string)
    ensures ContainsAny(r, TechnicalKeywords)
            <==> Contains(r, "technical") || Contains(r, "backend") || Contains(r, "web")
  {
    if Contains(r, "website") {
      assert "website" == "web" + "site";
      ContainsPrefixOf(r, "web", "site");
    }
    assert TechnicalKeywords[0] == "technical" && TechnicalKeywords[1] == "backend";
    assert TechnicalKeywords[2] == "website" && TechnicalKeywords[3] == "web";
    if Contains(r, "technical") { assert Contains(r, TechnicalKeywords[0]); }
    if Contains(r, "backend") { assert Contains(r, TechnicalKeywords[1]); }
    if Contains(r, "web") { assert Contains(r, TechnicalKeywords[3]); }
  }

  lemma JaneDoeKey(name: string)
    requires name == "Jane Doe"
    ensures CleanName(name) == "jane doe"
  {
    assert ToLower(name) == "jane doe";
    TrimNoop(ToLower(name));
  }

  /** No table key has eight characters. */
  lemma JaneDoeNotInTable(key: string)
    requires key == "jane doe"
    ensures key !in ManualTeam
  {
    assert |key| == 8;
    assert forall k | k in ManualTeam :: |k| != 8;
  }

  lemma NishantPatilKey(name: string)
    requires name == "Nishant Patil"
    ensures CleanName(name) == "nishant patil"
  {
    assert ToLower(name) == "nishant patil";
    TrimNoop(ToLower(name));
  }

  lemma FacultyAdvisorLower(role: string)
    requires role == "Faculty Advisor"
    ensures ToLower(role) == "faculty advisor"
  {
  }

  lemma FacultyAdvisorCollapsed(r: string)
    requires r == "faculty advisor"
    ensures Collapsed(r)
  {
    WordsCollapsed("faculty", "advisor");
    assert r == "faculty" + " " + "advisor";
  }

  lemma FacultyAdvisorRole(role: string)
    requires role == "Faculty Advisor"
    ensures NormalizeRole(role) == "faculty advisor"
  {
    FacultyAdvisorLower(role);
    FacultyAdvisorCollapsed("faculty advisor");
    CollapsedFixpoint("faculty advisor");
  }

  lemma ConvenorLower(role: string)
    requires role == "Convenor"
    ensures ToLower(role) == "convenor"
  {
  }

  lemma ConvenorRole(role: string)
    requires role == "Convenor"
    ensures NormalizeRole(role) == "convenor"
  {
    ConvenorLower(role);
    WordsCollapsed("convenor", "");
    CollapsedFixpoint("convenor");
  }

  /** A faculty advisor outside the table is Faculty. */
  lemma FacultyAdvisorExample(role: string, name: string)
    requires role == "Faculty Advisor" && name == "Jane Doe"
    ensures CategorizeRole(role, name) == Faculty
  {
    JaneDoeKey(name);
    JaneDoeNotInTable(CleanName(name));
    FacultyAdvisorRole(role);
    FacultyAdvisorMatches(NormalizeRole(role));
    HeuristicOrder(role, name);
  }

  lemma FacultyAdvisorMatches(r: string)
    requires r == "faculty advisor"
    ensures ContainsAny(r, FacultyKeywords)
  {
    assert StartsWith(r, FacultyKeywords[0]);
  }

  /** `convenor` contains none of the keywords. */
  lemma ConvenorMatchesNoRule(r: string)
    requires r == "convenor"
    ensures !ContainsAny(r, FacultyKeywords) && !ContainsAny(r, CoreKeywords) && !ContainsAny(r, TechnicalKeywords)
  {
    forall k | 0 <= k < |FacultyKeywords| ensures !Contains(r, FacultyKeywords[k]) {
      var c := if k == 0 then 'f' else if k == 1 then 'a' else if k == 2 then 'p' else 'h';
      assert c in FacultyKeywords[k] && c !in r;
      if Contains(r, FacultyKeywords[k]) { ContainsChars(r, FacultyKeywords[k], c); }
    }
    if Contains(r, "convener") { ContainsLength(r, "convener"); }
    if Contains(r, "executive") { ContainsChars(r, "executive", 'x'); }
    forall k | 0 <= k < |TechnicalKeywords| ensures !Contains(r, TechnicalKeywords[k]) {
      var c := if k == 0 then 't' else if k == 1 then 'b' else 'w';
      assert c in TechnicalKeywords[k] && c !in r;
      if Contains(r, TechnicalKeywords[k]) { ContainsChars(r, TechnicalKeywords[k], c); }
    }
    assert CoreKeywords == ["convener", "executive"];
  }

  /** The spelling `Convenor` matches no rule (only `convener` does), so it falls through to the Events Team. */
  lemma ConvenorExample(role: string, name: string)
    requires role == "Convenor" && name == "Jane Doe"
    ensures CategorizeRole(role, name) == EventsTeam
  {
    JaneDoeKey(name);
    JaneDoeNotInTable(CleanName(name));
    ConvenorRole(role);
    ConvenorMatchesNoRule(NormalizeRole(role));
    HeuristicOrder(role, name);
  }

  /** A table name decides the category whatever the role text. */
  lemma TableNameExample(role: string, name: string)
    requires name == "Nishant Patil"
    ensures CategorizeRole(role, name) == CoreTeam
  {
    NishantPatilKey(name);
    NishantPatilInTable(CleanName(name));
    ManualOverrideWins(role, name);
  }

  lemma NishantPatilInTable(key: string)
    requires key == "nishant patil"
    ensures key in ManualTeam && ManualTeam[key] == CoreTeam
  {
  }

  // The table is a plain JavaScript object, so indexing it with a name that is not one of its
  // own keys still finds the properties every object inherits from `Object.prototype`.

  /**
   * The property names every plain JavaScript object inherits from `Object.prototype`. All but
   * two of them contain an upper-case letter, so no lower-cased key reaches them
   * (`ReachablePrototypeKeys`).
   */
  const ObjectPrototypeKeys: set<string> := {
    "constructor", "__proto__", "__defineGetter__", "__defineSetter__", "__lookupGetter__",
    "__lookupSetter__", "hasOwnProperty", "isPrototypeOf", "propertyIsEnumerable",
    "toLocaleString", "toString", "valueOf"
  }

  /** A lower-cased key can name only `constructor` or `__proto__` among the inherited properties. */
  lemma ReachablePrototypeKeys(key: string)
    requires NoUpper(key)
    ensures key in ObjectPrototypeKeys ==> key == "constructor" || key == "__proto__"
  {
    UpperAt(key, "__defineGetter__", 8);
    UpperAt(key, "__defineSetter__", 8);
    UpperAt(key, "__lookupGetter__", 8);
    UpperAt(key, "__lookupSetter__", 8);
    UpperAt(key, "hasOwnProperty", 3);
    UpperAt(key, "isPrototypeOf", 2);
    UpperAt(key, "propertyIsEnumerable", 8);
    UpperAt(key, "toLocaleString", 2);
    UpperAt(key, "toString", 2);
    UpperAt(key, "valueOf", 5);
  }

  /** Text without upper-case letters differs from any name with an upper-case letter. */
  lemma UpperAt(key: string, name: string, i: nat)
    requires NoUpper(key) && i < |name| && IsUpper(name[i])
    ensures key != name
  {
  }

  /** What indexing the table object with a key yields: a category, an inherited member, or `undefined`. */
  datatype Lookup = TableCategory(category: Category) | PrototypeMember(property: string) | Undefined

  function TableLookupAsWritten(key: string): Lookup {
    if key in ManualTeam then TableCategory(ManualTeam[key])
    else if key in ObjectPrototypeKeys then PrototypeMember(key)
    else Undefined
  }

  /**
   * The classifier as written: any truthy lookup result, inherited ones included, is returned.
   * A table name gets its category; the only names that leak are `constructor` and `__proto__`.
   */
  function CategorizeRoleAsWritten(role: string, name: string): (l: Lookup)
    ensures !l.Undefined?
    ensures CleanName(name) in ManualTeam ==> l == TableCategory(ManualTeam[CleanName(name)])
    ensures l.PrototypeMember? ==> l.property == CleanName(name)
    ensures l.PrototypeMember? ==> l.property == "constructor" || l.property == "__proto__"
  {
    var key := CleanName(name);
    NoEmptyKey();
    if key != [] && !TableLookupAsWritten(key).Undefined? then
      ReachablePrototypeKeys(key);
      TableLookupAsWritten(key)
    else TableCategory(Heuristic(NormalizeRole(role)))
  }

  /** Away from the inherited property names, the classifier as written and the model agree. */
  lemma AsWrittenAgreesOffPrototype(role: string, name: string)
    requires CleanName(name) !in ObjectPrototypeKeys
    ensures CategorizeRoleAsWritten(role, name) == TableCategory(CategorizeRole(role, name))
  {
  }

  lemma ConstructorKey(name: string)
    requires name == "Constructor"
    ensures CleanName(name) == "constructor"
  {
    assert ToLower(name) == "constructor";
    TrimNoop(ToLower(name));
  }

  lemma ConstructorNotInTable(key: string)
    requires key == "constructor"
    ensures key !in ManualTeam && key in ObjectPrototypeKeys
  {
  }

  /** A member named `Constructor` gets the inherited `Object` constructor instead of a category. */
  lemma ConstructorNameLeaks(role: string, name: string)
    requires name == "Constructor"
    ensures CategorizeRoleAsWritten(role, name) == PrototypeMember("constructor")
  {
    ConstructorKey(name);
    ConstructorNotInTable(CleanName(name));
  }

  /** With own keys only, a member named `Constructor` is classified by the keyword rules. */
  lemma ConstructorNameClassified(role: string, name: string)
    requires name == "Constructor"
    ensures CategorizeRole(role, name) == Heuristic(NormalizeRole(role))
    ensures CategorizeRole(role, name) in {Faculty, CoreTeam, TechnicalTeam, EventsTeam}
  {
    ConstructorKey(name);
    ConstructorNotInTable(CleanName(name));
  }
}
