/** `detect_unclenable_chars` and `has_unclenable_chars`: run every
    unclenable detector over the raw value and report, per detector that
    matched, how many characters it matched and the first three of them. */
module Detection {
  import opened Tables
  import opened CharacterRules

  /** `re.findall` for a class of single characters: the characters of `s`
      in the class, in order. */
  function FindAll(cls: CharClass, s: string): (m: seq<char>)
    ensures |m| <= |s|
  {
    if |s| == 0 then []
    else
      var rest := FindAll(cls, s[1..]);
      assert forall i :: 1 <= i < |s| ==> s[i] == s[1..][i - 1];
      (if InClass(cls, s[0]) then [s[0]] else []) + rest
  }

  /** Every match is in the class. */
  lemma {:induction false} FindAllInClass(cls: CharClass, s: string)
    ensures forall i :: 0 <= i < |FindAll(cls, s)| ==> InClass(cls, FindAll(cls, s)[i])
  {
    if s != [] {
      FindAllInClass(cls, s[1..]);
    }
  }

  /** Nothing matches iff no character of `s` is in the class. */
  lemma {:induction false} FindAllEmptyIff(cls: CharClass, s: string)
    ensures |FindAll(cls, s)| == 0 <==> forall i :: 0 <= i < |s| ==> !InClass(cls, s[i])
  {
    if s != [] {
      FindAllEmptyIff(cls, s[1..]);
      assert forall i :: 1 <= i < |s| ==> s[i] == s[1..][i - 1];
    }
  }

  /** The matches are the characters of `s` that are in the class, each as
      often as it occurs in `s`: an issue's count is the number of such
      characters. */
  lemma {:induction false} FindAllCounts(cls: CharClass, s: string)
    ensures forall c :: multiset(FindAll(cls, s))[c] == if InClass(cls, c) then multiset(s)[c] else 0
  {
    if |s| > 0 {
      FindAllCounts(cls, s[1..]);
      assert s == [s[0]] + s[1..];
      assert multiset(s) == multiset([s[0]]) + multiset(s[1..]);
    }
  }

  /** When every character is in the class, every character is a match. */
  lemma {:induction false} FindAllEverything(cls: CharClass, s: string)
    requires forall i :: 0 <= i < |s| ==> InClass(cls, s[i])
    ensures FindAll(cls, s) == s
  {
    if s != [] {
      assert forall i :: 1 <= i < |s| ==> s[i] == s[1..][i - 1];
      FindAllEverything(cls, s[1..]);
    }
  }

  /** Matching distributes over concatenation. */
  lemma {:induction false} FindAllAppend(cls: CharClass, a: string, b: string)
    ensures FindAll(cls, a + b) == FindAll(cls, a) + FindAll(cls, b)
  {
    if a == [] {
      assert a + b == b;
    } else {
      var ab := a + b;
      assert ab[0] == a[0] && ab[1..] == a[1..] + b;
      var head := if InClass(cls, a[0]) then [a[0]] else [];
      assert FindAll(cls, ab) == head + FindAll(cls, ab[1..]);
      assert FindAll(cls, a) == head + FindAll(cls, a[1..]);
      FindAllAppend(cls, a[1..], b);
    }
  }

  /** One issue record: the detector that matched, the number of matches
      and the first three matches (kept as the matched characters
      themselves).  The record's `type`, `description` and `example` are
      the detector's. */
  datatype Issue = Issue(detector: Detector, count: nat, foundChars: seq<char>)
  {
    function Type(): string { detector.Name() }
    function Description(): string { detector.Description() }
    function Example(): string { detector.Example() }
  }

  function Min(a: nat, b: nat): nat {
    if a <= b then a else b
  }

  /** Number of samples kept per issue. */
  const SampleLimit: nat := 3

  /** The issue `rule` reports on `s` when it matches at all. */
  function IssueFor(rule: UnclenableRule, s: string): Issue {
    var m := FindAll(rule.pattern, s);
    Issue(rule.kind, |m|, m[..Min(|m|, SampleLimit)])
  }

  /** The issues of `rules` on `s`, one per rule that matches, in order. */
  function DetectIn(rules: seq<UnclenableRule>, s: string): (issues: seq<Issue>)
    ensures |issues| <= |rules|
  {
    if |rules| == 0 then []
    else
      var last := rules[|rules| - 1];
      DetectIn(rules[..|rules| - 1], s) + (if |FindAll(last.pattern, s)| > 0 then [IssueFor(last, s)] else [])
  }

  /** Independent description: the positions of the rules that match `s`,
      in declaration order. */
  function Firing(rules: seq<UnclenableRule>, s: string): (js: seq<nat>)
  {
    if |rules| == 0 then []
    else Firing(rules[..|rules| - 1], s) + (if |FindAll(rules[|rules| - 1].pattern, s)| > 0 then [|rules| - 1] else [])
  }

  /** The positions of the matching rules are valid and strictly increase,
      and a rule is among them iff it matches. */
  lemma {:induction false} FiringIsOrderedMatches(rules: seq<UnclenableRule>, s: string)
    ensures forall k :: 0 <= k < |Firing(rules, s)| ==> Firing(rules, s)[k] < |rules|
    ensures forall k, l :: 0 <= k < l < |Firing(rules, s)| ==> Firing(rules, s)[k] < Firing(rules, s)[l]
    ensures forall j :: 0 <= j < |rules| ==> (j in Firing(rules, s) <==> |FindAll(rules[j].pattern, s)| > 0)
  {
    if rules != [] {
      var init := rules[..|rules| - 1];
      FiringIsOrderedMatches(init, s);
      assert forall j :: 0 <= j < |init| ==> init[j] == rules[j];
    }
  }

  /** Issue `k` is the issue of the `k`-th matching rule. */
  lemma {:induction false} DetectInIsFiring(rules: seq<UnclenableRule>, s: string)
    ensures |DetectIn(rules, s)| == |Firing(rules, s)|
    ensures forall k :: 0 <= k < |Firing(rules, s)| ==>
      Firing(rules, s)[k] < |rules| && DetectIn(rules, s)[k] == IssueFor(rules[Firing(rules, s)[k]], s)
  {
    if rules != [] {
      var init := rules[..|rules| - 1];
      DetectInIsFiring(init, s);
      FiringIsOrderedMatches(init, s);
      assert forall j :: 0 <= j < |init| ==> init[j] == rules[j];
    }
  }

  /** Every issue reports a positive count and min(count, 3) samples. */
  lemma {:induction false} DetectInCounts(rules: seq<UnclenableRule>, s: string)
    ensures forall k :: 0 <= k < |DetectIn(rules, s)| ==>
      DetectIn(rules, s)[k].count >= 1 && |DetectIn(rules, s)[k].foundChars| == Min(DetectIn(rules, s)[k].count, SampleLimit)
  {
    DetectInIsFiring(rules, s);
    FiringIsOrderedMatches(rules, s);
    forall k | 0 <= k < |DetectIn(rules, s)|
      ensures DetectIn(rules, s)[k].count >= 1
    {
      var j := Firing(rules, s)[k];
      assert j in Firing(rules, s);
    }
  }

  /** `str(v)` unless the value is missing. */
  function Detect(v: Cell): (issues: seq<Issue>)
    ensures v.Missing? ==> |issues| == 0
  {
    if v.Missing? then [] else DetectIn(UnclenablePatterns, Display(v))
  }

  /** The loop of `detect_unclenable_chars`: one pass over the detectors,
      appending an issue for each that matches. */
  method DetectUnclenableChars(v: Cell) returns (issues: seq<Issue>)
    ensures issues == Detect(v)
  {
    if v.Missing? {
      return [];
    }
    var text := Display(v);
    issues := [];
    for i := 0 to |UnclenablePatterns|
      invariant issues == DetectIn(UnclenablePatterns[..i], text)
    {
      var rule := UnclenablePatterns[i];
      assert UnclenablePatterns[..i + 1][..i] == UnclenablePatterns[..i];
      assert UnclenablePatterns[..i + 1][i] == rule;
      var matches := FindAll(rule.pattern, text);
      if |matches| > 0 {
        issues := issues + [Issue(rule.kind, |matches|, matches[..Min(|matches|, SampleLimit)])];
      }
    }
    assert UnclenablePatterns[..|UnclenablePatterns|] == UnclenablePatterns;
  }

  /** Some character of `s` is matched by some detector of `rules`. */
  lemma {:induction false} DetectInNonEmpty(rules: seq<UnclenableRule>, s: string)
    ensures |DetectIn(rules, s)| > 0 <==>
      exists j, i :: 0 <= j < |rules| && 0 <= i < |s| && InClass(rules[j].pattern, s[i])
  {
    if rules != [] {
      var init, last := rules[..|rules| - 1], rules[|rules| - 1];
      DetectInNonEmpty(init, s);
      FindAllEmptyIff(last.pattern, s);
      if |DetectIn(rules, s)| > 0 {
        if |DetectIn(init, s)| > 0 {
          var j, i :| 0 <= j < |init| && 0 <= i < |s| && InClass(init[j].pattern, s[i]);
          assert InClass(rules[j].pattern, s[i]);
        } else {
          var i :| 0 <= i < |s| && InClass(last.pattern, s[i]);
          assert InClass(rules[|rules| - 1].pattern, s[i]);
        }
      } else {
        forall j, i | 0 <= j < |rules| && 0 <= i < |s| ensures !InClass(rules[j].pattern, s[i]) {
          if j < |init| {
            assert rules[j] == init[j];
          }
        }
      }
    }
  }

  /** Detection reports something iff the value is not missing and one of
      its characters is in the union of the seven detector classes. */
  lemma {:induction false} DetectNonEmptyIff(v: Cell)
    ensures |Detect(v)| > 0 <==> !v.Missing? && exists i :: 0 <= i < |Display(v)| && IsUnclenableChar(Display(v)[i])
  {
    if !v.Missing? {
      var s := Display(v);
      DetectInNonEmpty(UnclenablePatterns, s);
      forall i | 0 <= i < |s| { UnionOfClasses(s[i]); }
    }
  }

  /** `has_unclenable_chars`. */
  function HasUnclenableChars(v: Cell): bool
  {
    |Detect(v)| > 0
  }

  /** Some character of `s` is in the union of the seven detector classes. */
  predicate ContainsUnclenable(s: string) {
    |s| > 0 && (IsUnclenableChar(s[0]) || ContainsUnclenable(s[1..]))
  }

  lemma {:induction false} ContainsUnclenableIff(s: string)
    ensures ContainsUnclenable(s) <==> exists i :: 0 <= i < |s| && IsUnclenableChar(s[i])
  {
    if s != [] {
      ContainsUnclenableIff(s[1..]);
      assert forall i :: 1 <= i < |s| ==> s[i] == s[1..][i - 1];
    }
  }

  /** Reference definition: the value is not missing and one character of
      its rendering is in the union of the seven detector classes. */
  predicate ShowsUnclenable(v: Cell) {
    !v.Missing? && ContainsUnclenable(Display(v))
  }

  /** `has_unclenable_chars` agrees with the reference definition. */
  lemma {:induction false} HasUnclenableCharsIff(v: Cell)
    ensures HasUnclenableChars(v) <==> ShowsUnclenable(v)
  {
    DetectNonEmptyIff(v);
    ContainsUnclenableIff(Display(v));
  }

  /** Each issue counts every character of the value in its rule's class. */
  lemma {:induction false} IssueCounts(v: Cell, k: nat)
    requires k < |Detect(v)|
    ensures !v.Missing?
    ensures exists j :: 0 <= j < |UnclenablePatterns| && Detect(v)[k] == IssueFor(UnclenablePatterns[j], Display(v))
    ensures Detect(v)[k].count >= 1
    ensures |Detect(v)[k].foundChars| == Min(Detect(v)[k].count, SampleLimit)
  {
    DetectInIsFiring(UnclenablePatterns, Display(v));
    DetectInCounts(UnclenablePatterns, Display(v));
    var j := Firing(UnclenablePatterns, Display(v))[k];
    assert Detect(v)[k] == IssueFor(UnclenablePatterns[j], Display(v));
  }

  /** An escape is also a control character: wherever the escape rule
      matches, the control rule matches at least as often. */
  lemma {:induction false} EscapeCountedAsControl(s: string)
    ensures |FindAll(UnclenablePatterns[2].pattern, s)| <= |FindAll(UnclenablePatterns[1].pattern, s)|
  {
    if s != [] {
      EscapeIsControl(s[0]);
      EscapeCountedAsControl(s[1..]);
    }
  }

  /** A value holding an escape is reported twice for it: by the control
      rule and, after it, by the escape rule. */
  lemma {:induction false} EscapeRaisesBoth(s: string)
    requires '\U{1B}' in s
    ensures exists k1, k2 ::
      && 0 <= k1 < k2 < |Detect(Text(s))|
      && Detect(Text(s))[k1].detector == ControlChars
      && Detect(Text(s))[k2].detector == EscapeChar
  {
    var P := UnclenablePatterns;
    var i :| 0 <= i < |s| && s[i] == '\U{1B}';
    assert InClass(P[1].pattern, s[i]) by {
      assert P[1].pattern[3].lo <= s[i] as int <= P[1].pattern[3].hi;
    }
    assert InClass(P[2].pattern, s[i]) by {
      assert P[2].pattern[0].lo <= s[i] as int <= P[2].pattern[0].hi;
    }
    FindAllEmptyIff(P[1].pattern, s);
    FindAllEmptyIff(P[2].pattern, s);
    FiringIsOrderedMatches(P, s);
    DetectInIsFiring(P, s);
    var f := Firing(P, s);
    assert 1 in f && 2 in f;
    var k1 :| 0 <= k1 < |f| && f[k1] == 1;
    var k2 :| 0 <= k2 < |f| && f[k2] == 2;
    assert Detect(Text(s))[k1] == IssueFor(P[1], s);
    assert Detect(Text(s))[k2] == IssueFor(P[2], s);
  }

  /** Inserting a tab, line feed or carriage return changes no issue. */
  lemma {:induction false} InsertLayoutCharUnflagged(a: string, c: char, b: string)
    requires c == '\t' || c == '\n' || c == '\r'
    ensures Detect(Text(a + [c] + b)) == Detect(Text(a + b))
  {
    TabNewlineReturnNotFlagged(c);
    DetectInInsert(UnclenablePatterns, a, c, b);
  }

  lemma {:induction false} DetectInInsert(rules: seq<UnclenableRule>, a: string, c: char, b: string)
    requires forall j :: 0 <= j < |rules| ==> !InClass(rules[j].pattern, c)
    ensures DetectIn(rules, a + [c] + b) == DetectIn(rules, a + b)
  {
    if rules != [] {
      var last := rules[|rules| - 1];
      DetectInInsert(rules[..|rules| - 1], a, c, b);
      FindAllInsert(last.pattern, a, c, b);
    }
  }

  lemma {:induction false} FindAllInsert(cls: CharClass, a: string, c: char, b: string)
    requires !InClass(cls, c)
    ensures FindAll(cls, a + [c] + b) == FindAll(cls, a + b)
  {
    assert [c][1..] == [];
    assert FindAll(cls, [c]) == [];
    FindAllAppend(cls, a, [c]);
    assert FindAll(cls, a + [c]) == FindAll(cls, a);
    FindAllAppend(cls, a + [c], b);
    FindAllAppend(cls, a, b);
  }
}
