/** The two fixed rule tables of the cleaner: characters with a safe
    replacement (cleanable), and the seven detectors of characters that
    signal corruption (unclenable).  Every detector is a class of single
    code points, so a match is always exactly one character. */
module CharacterRules {

  /** Replace every occurrence of `source` by `replacement`. */
  datatype CleanRule = CleanRule(source: char, replacement: string)

  /** The cleanable table, in declaration order.  In CleanDataFunction.py
      (lines 18-21) the four smart-quote entries appear flattened to ASCII
      quotes: two identical `'"' -> '"'` entries and two entries that do not
      parse.  Their comments name the left and right smart quotes and
      apostrophes, so they are taken as the four rules U+201C, U+201D -> '"'
      and U+2018, U+2019 -> "'". */
  const CleanableChars: seq<CleanRule> := [
    CleanRule('\U{2122}', ""),     // trademark
    CleanRule('\U{AE}', ""),       // registered
    CleanRule('\U{A9}', ""),       // copyright
    CleanRule('\U{201C}', "\""),   // smart quote left
    CleanRule('\U{201D}', "\""),   // smart quote right
    CleanRule('\U{2018}', "'"),    // smart apostrophe left
    CleanRule('\U{2019}', "'"),    // smart apostrophe right
    CleanRule('\U{2013}', "-"),    // en dash
    CleanRule('\U{2014}', "-"),    // em dash
    CleanRule('\U{2026}', "..."),  // ellipsis
    CleanRule('\U{200B}', ""),     // zero-width space
    CleanRule('\U{FEFF}', ""),     // byte-order mark
    CleanRule('_', " ")            // underscore to space
  ]

  /** No rule's replacement contains the source of any rule. */
  predicate SourcesNotReplaced(rules: seq<CleanRule>) {
    forall k, m :: 0 <= k < |rules| && 0 <= m < |rules| ==> rules[m].source !in rules[k].replacement
  }

  /** The cleanable table has that property, so a later rule never
      re-matches what an earlier rule produced. */
  lemma CleanableSourcesNotReplaced()
    ensures SourcesNotReplaced(CleanableChars)
  {
    forall k, m | 0 <= k < |CleanableChars| && 0 <= m < |CleanableChars|
      ensures CleanableChars[m].source !in CleanableChars[k].replacement
    {
      var r := CleanableChars[k].replacement;
      assert forall i :: 0 <= i < |r| ==> r[i] in "\"'-. ";
    }
  }

  /** The cleanable table is a dictionary: thirteen rules, in declaration
      order, no two with the same source. */
  lemma CleanableCharsAreDictionary()
    ensures |CleanableChars| == 13
    ensures forall k, m :: 0 <= k < m < |CleanableChars| ==> CleanableChars[k].source != CleanableChars[m].source
  {
  }

  /** An inclusive range of code points. */
  datatype CodeRange = CodeRange(lo: int, hi: int)

  /** A regular-expression character class such as `[\x01-\x08\x0B]`. */
  type CharClass = seq<CodeRange>

  predicate InClass(cls: CharClass, c: char) {
    exists k :: 0 <= k < |cls| && cls[k].lo <= c as int <= cls[k].hi
  }

  /** The names of the seven unclenable detectors.  Each has the name
      reported as the issue's `type`, a description and an example. */
  datatype Detector =
    | NullChar | ControlChars | EscapeChar | EbcdicNewline
    | EbcdicArtifacts | ReplacementChar | PrivateUse
  {
    function Name(): string {
      match this
      case NullChar => "null_char"
      case ControlChars => "control_chars"
      case EscapeChar => "escape_char"
      case EbcdicNewline => "ebcdic_newline"
      case EbcdicArtifacts => "ebcdic_artifacts"
      case ReplacementChar => "replacement_char"
      case PrivateUse => "private_use"
    }

    function Description(): string {
      match this
      case NullChar => "NULL character - Binary data corruption"
      case ControlChars => "Control characters - Mainframe/Legacy system artifacts"
      case EscapeChar => "Escape character - Terminal sequences"
      case EbcdicNewline => "EBCDIC Newline - Mainframe data"
      case EbcdicArtifacts => "EBCDIC conversion artifacts - Mainframe migration issue"
      case ReplacementChar => "Replacement character - Encoding error (data loss)"
      case PrivateUse => "Private Use Area - Custom/proprietary characters"
    }

    function Example(): string {
      match this
      case NullChar => "\\x00"
      case ControlChars => "\\x01-\\x1F"
      case EscapeChar => "\\x1B"
      case EbcdicNewline => "\\x85"
      case EbcdicArtifacts => "\\x8D, \\x8F, etc."
      case ReplacementChar => "\U{FFFD}"
      case PrivateUse => "Private Unicode"
    }
  }

  /** A detector with the class of single characters it matches. */
  datatype UnclenableRule = UnclenableRule(kind: Detector, pattern: CharClass)

  /** The unclenable table, in declaration order. */
  const UnclenablePatterns: seq<UnclenableRule> := [
    UnclenableRule(NullChar, [CodeRange(0x00, 0x00)]),
    UnclenableRule(ControlChars, [CodeRange(0x01, 0x08), CodeRange(0x0B, 0x0B), CodeRange(0x0C, 0x0C), CodeRange(0x0E, 0x1F)]),
    UnclenableRule(EscapeChar, [CodeRange(0x1B, 0x1B)]),
    UnclenableRule(EbcdicNewline, [CodeRange(0x85, 0x85)]),
    UnclenableRule(EbcdicArtifacts, [CodeRange(0x8D, 0x8D), CodeRange(0x8F, 0x8F), CodeRange(0x90, 0x90), CodeRange(0x9D, 0x9D)]),
    UnclenableRule(ReplacementChar, [CodeRange(0xFFFD, 0xFFFD)]),
    UnclenableRule(PrivateUse, [CodeRange(0xE000, 0xF8FF)])
  ]

  /** The unclenable table is a dictionary: seven detectors, in declaration
      order, no two with the same name. */
  lemma UnclenablePatternsAreDictionary()
    ensures |UnclenablePatterns| == 7
    ensures forall j, k :: 0 <= j < k < |UnclenablePatterns| ==> UnclenablePatterns[j].kind.Name() != UnclenablePatterns[k].kind.Name()
  {
  }

  /** Reference definition of "some detector matches `c`", written as the
      flat union of the seven classes. */
  predicate IsUnclenableChar(c: char) {
    var n := c as int;
    || 0x00 <= n <= 0x08 || n == 0x0B || n == 0x0C || 0x0E <= n <= 0x1F
    || n == 0x85 || n == 0x8D || n == 0x8F || n == 0x90 || n == 0x9D
    || n == 0xFFFD || 0xE000 <= n <= 0xF8FF
  }

  /** The union of the seven detector classes is exactly the reference set. */
  lemma {:induction false} UnionOfClasses(c: char)
    ensures IsUnclenableChar(c) <==> exists j :: 0 <= j < |UnclenablePatterns| && InClass(UnclenablePatterns[j].pattern, c)
  {
    var n, P := c as int, UnclenablePatterns;
    if IsUnclenableChar(c) {
      var (j, k) :=
        if n == 0 then (0, 0)
        else if 0x01 <= n <= 0x08 then (1, 0)
        else if n == 0x0B then (1, 1)
        else if n == 0x0C then (1, 2)
        else if 0x0E <= n <= 0x1F then (1, 3)
        else if n == 0x85 then (3, 0)
        else if n == 0x8D then (4, 0)
        else if n == 0x8F then (4, 1)
        else if n == 0x90 then (4, 2)
        else if n == 0x9D then (4, 3)
        else if n == 0xFFFD then (5, 0)
        else (6, 0);
      assert P[j].pattern[k].lo <= n <= P[j].pattern[k].hi;
      assert InClass(P[j].pattern, c);
    }
    forall j, k | 0 <= j < |P| && 0 <= k < |P[j].pattern| && P[j].pattern[k].lo <= n <= P[j].pattern[k].hi
      ensures IsUnclenableChar(c)
    {
      if j == 1 || j == 4 {
        assert k == 0 || k == 1 || k == 2 || k == 3;
      }
    }
  }

  /** Tab, line feed and carriage return are never flagged. */
  lemma {:induction false} TabNewlineReturnNotFlagged(c: char)
    requires c == '\t' || c == '\n' || c == '\r'
    ensures forall j :: 0 <= j < |UnclenablePatterns| ==> !InClass(UnclenablePatterns[j].pattern, c)
  {
    UnionOfClasses(c);
  }

  /** The escape class lies inside the control class. */
  lemma {:induction false} EscapeIsControl(c: char)
    ensures InClass(UnclenablePatterns[2].pattern, c) ==> InClass(UnclenablePatterns[1].pattern, c)
  {
    if InClass(UnclenablePatterns[2].pattern, c) {
      assert UnclenablePatterns[1].pattern[3].lo <= c as int <= UnclenablePatterns[1].pattern[3].hi;
    }
  }

  /** The whitespace test of Python's `str.split()` and `str.strip()`:
      bidirectional class WS, B or S, or general category Zs. */
  predicate IsPySpace(c: char) {
    var n := c as int;
    || 0x09 <= n <= 0x0D || 0x1C <= n <= 0x20 || n == 0x85 || n == 0xA0
    || n == 0x1680 || 0x2000 <= n <= 0x200A || n == 0x2028 || n == 0x2029
    || n == 0x202F || n == 0x205F || n == 0x3000
  }

  /** The space that joins words is not a cleanable source. */
  lemma SpaceIsNotSource()
    ensures forall k :: 0 <= k < |CleanableChars| ==> CleanableChars[k].source != ' '
  {
  }

  /** `x` occurs in the replacement of some rule. */
  predicate InSomeReplacement(rules: seq<CleanRule>, x: char) {
    exists k :: 0 <= k < |rules| && x in rules[k].replacement
  }

  /** No replacement character, and not the space that joins words, is
      matched by any detector: cleaning never introduces an unclenable
      character. */
  lemma ReplacementsAreNotUnclenable()
    ensures forall x :: InSomeReplacement(CleanableChars, x) ==> !IsUnclenableChar(x)
    ensures !IsUnclenableChar(' ')
  {
    forall x | InSomeReplacement(CleanableChars, x) ensures !IsUnclenableChar(x) {
      var k :| 0 <= k < |CleanableChars| && x in CleanableChars[k].replacement;
      assert x in "\"'-. ";
    }
  }
}
