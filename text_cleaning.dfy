/** `clean_text`: replace every cleanable character by its substitute, rule
    after rule in declaration order, then collapse every whitespace run to
    one space and trim (`' '.join(text.split()).strip()`). */
module TextCleaning {
  import opened Tables
  import opened CharacterRules

  /** Python's `s.replace(c, r)` for a one-character `c`. */
  function ReplaceChar(s: string, c: char, r: string): string
  {
    if |s| == 0 then [] else (if s[0] == c then r else [s[0]]) + ReplaceChar(s[1..], c, r)
  }

  /** Every character of the result is a character of `s` other than `c`,
      or a character of `r`; without `c` in `s` nothing changes. */
  lemma {:induction false} ReplaceCharChars(s: string, c: char, r: string)
    ensures forall x :: x in ReplaceChar(s, c, r) ==> (x in s && x != c) || x in r
    ensures c !in s ==> ReplaceChar(s, c, r) == s
  {
    if |s| > 0 {
      ReplaceCharChars(s[1..], c, r);
      var head := if s[0] == c then r else [s[0]];
      assert ReplaceChar(s, c, r) == head + ReplaceChar(s[1..], c, r);
      forall x | x in ReplaceChar(s[1..], c, r) ensures (x in s && x != c) || x in r {
        if x in s[1..] {
          var i :| 0 <= i < |s[1..]| && s[1..][i] == x;
          assert s[i + 1] == x;
        }
      }
      if c !in s {
        assert s == [s[0]] + s[1..];
      }
    }
  }

  /** A one-character replacement rewrites position by position. */
  lemma {:induction false} ReplaceCharPointwise(s: string, c: char, d: char, i: nat)
    requires i < |s|
    ensures |ReplaceChar(s, c, [d])| == |s|
    ensures ReplaceChar(s, c, [d])[i] == if s[i] == c then d else s[i]
  {
    if i > 0 {
      ReplaceCharPointwise(s[1..], c, d, i - 1);
    } else if |s| > 1 {
      ReplaceCharPointwise(s[1..], c, d, 0);
    }
  }

  /** The rule loop of `clean_text`: fold the rules over the text in
      declaration order. */
  function ApplyRules(s: string, rules: seq<CleanRule>): string
    decreases |rules|
  {
    if |rules| == 0 then s
    else ApplyRules(ReplaceChar(s, rules[0].source, rules[0].replacement), rules[1..])
  }

  /** Every character of the result comes from `s` or from a replacement;
      text without any rule source is left alone; and when no replacement
      contains a source, no source is left. */
  lemma {:induction false} ApplyRulesChars(s: string, rules: seq<CleanRule>)
    ensures forall x :: x in ApplyRules(s, rules) ==> x in s || InSomeReplacement(rules, x)
    ensures (forall k :: 0 <= k < |rules| ==> rules[k].source !in s) ==> ApplyRules(s, rules) == s
    ensures SourcesNotReplaced(rules) ==> forall k :: 0 <= k < |rules| ==> rules[k].source !in ApplyRules(s, rules)
    decreases |rules|
  {
    if |rules| > 0 {
      var c, r, tail := rules[0].source, rules[0].replacement, rules[1..];
      var s' := ReplaceChar(s, c, r);
      ReplaceCharChars(s, c, r);
      ApplyRulesChars(s', tail);
      assert ApplyRules(s, rules) == ApplyRules(s', tail);
      assert forall k :: 0 <= k < |tail| ==> tail[k] == rules[k + 1];
      forall x | InSomeReplacement(tail, x) ensures InSomeReplacement(rules, x) {
        var k :| 0 <= k < |tail| && x in tail[k].replacement;
        assert x in rules[k + 1].replacement;
      }
      if SourcesNotReplaced(rules) {
        assert SourcesNotReplaced(tail);
        assert c !in r by {
          assert rules[0].source !in rules[0].replacement;
        }
        assert c !in s';
        assert !InSomeReplacement(tail, c) by {
          forall m | 0 <= m < |tail| ensures c !in tail[m].replacement {
            assert rules[0].source !in rules[m + 1].replacement;
          }
        }
        forall k | 0 <= k < |rules| ensures rules[k].source !in ApplyRules(s, rules) {
          if k > 0 {
            assert rules[k].source == tail[k - 1].source;
          }
        }
      }
    }
  }

  /** `str.replace` works piece by piece: replacing in a concatenation is
      replacing in each part. */
  lemma {:induction false} ReplaceCharAppend(a: string, b: string, c: char, r: string)
    ensures ReplaceChar(a + b, c, r) == ReplaceChar(a, c, r) + ReplaceChar(b, c, r)
  {
    if |a| == 0 {
      assert a + b == b;
    } else {
      assert (a + b)[0] == a[0] && (a + b)[1..] == a[1..] + b;
      ReplaceCharAppend(a[1..], b, c, r);
    }
  }

  /** So does the rule loop. */
  lemma {:induction false} ApplyRulesAppend(a: string, b: string, rules: seq<CleanRule>)
    ensures ApplyRules(a + b, rules) == ApplyRules(a, rules) + ApplyRules(b, rules)
    decreases |rules|
  {
    if |rules| > 0 {
      var c, r := rules[0].source, rules[0].replacement;
      ReplaceCharAppend(a, b, c, r);
      ApplyRulesAppend(ReplaceChar(a, c, r), ReplaceChar(b, c, r), rules[1..]);
    }
  }

  /** Reference definition: what one character becomes under a rule table,
      namely the replacement of the first rule whose source it is, or the
      character itself when it is no rule's source. */
  function Subst(rules: seq<CleanRule>, x: char): string
  {
    if |rules| == 0 then [x]
    else if rules[0].source == x then rules[0].replacement
    else Subst(rules[1..], x)
  }

  /** `Subst` keeps a character that is no rule's source. */
  lemma {:induction false} SubstOfNonSource(rules: seq<CleanRule>, x: char)
    requires forall k :: 0 <= k < |rules| ==> rules[k].source != x
    ensures Subst(rules, x) == [x]
  {
    if |rules| > 0 {
      var tail := rules[1..];
      assert forall k :: 0 <= k < |tail| ==> tail[k] == rules[k + 1];
      SubstOfNonSource(tail, x);
    }
  }

  /** `Subst` maps a source to the replacement of the first rule for it. */
  lemma {:induction false} SubstOfSource(rules: seq<CleanRule>, x: char, k: nat)
    requires k < |rules| && rules[k].source == x
    requires forall j :: 0 <= j < k ==> rules[j].source != x
    ensures Subst(rules, x) == rules[k].replacement
  {
    if k > 0 {
      var tail := rules[1..];
      assert forall j :: 0 <= j < |tail| ==> tail[j] == rules[j + 1];
      SubstOfSource(tail, x, k - 1);
    }
  }

  /** Reference definition: every character of `s` replaced by its `Subst`,
      in order. */
  function SubstAll(rules: seq<CleanRule>, s: string): string
  {
    if |s| == 0 then [] else Subst(rules, s[0]) + SubstAll(rules, s[1..])
  }

  /** On a single character the rule loop gives its `Subst`, when no
      replacement holds a source. */
  lemma {:induction false} ApplyRulesOneChar(rules: seq<CleanRule>, x: char)
    requires SourcesNotReplaced(rules)
    ensures ApplyRules([x], rules) == Subst(rules, x)
    decreases |rules|
  {
    if |rules| > 0 {
      var c, r, tail := rules[0].source, rules[0].replacement, rules[1..];
      assert SourcesNotReplaced(tail) by {
        forall k, m | 0 <= k < |tail| && 0 <= m < |tail| ensures tail[m].source !in tail[k].replacement {
          assert tail[m].source == rules[m + 1].source && tail[k] == rules[k + 1];
        }
      }
      assert [x][1..] == [];
      if c == x {
        assert ReplaceChar([x], c, r) == r + ReplaceChar([], c, r);
        assert r + [] == r;
        ApplyRulesChars(r, tail);
        assert forall k :: 0 <= k < |tail| ==> tail[k].source !in r by {
          forall k | 0 <= k < |tail| ensures tail[k].source !in r {
            assert tail[k].source == rules[k + 1].source;
          }
        }
      } else {
        assert ReplaceChar([x], c, r) == [x] + ReplaceChar([], c, r);
        assert [x] + [] == [x];
        ApplyRulesOneChar(tail, x);
      }
    }
  }

  /** The rule loop replaces each character of the text by its `Subst`,
      independently and in order: every character that is no source is
      kept, and every source becomes its replacement. */
  lemma {:induction false} ApplyRulesIsSubstAll(s: string, rules: seq<CleanRule>)
    requires SourcesNotReplaced(rules)
    ensures ApplyRules(s, rules) == SubstAll(rules, s)
  {
    if |s| == 0 {
      ApplyRulesChars(s, rules);
    } else {
      assert s == [s[0]] + s[1..];
      ApplyRulesAppend([s[0]], s[1..], rules);
      ApplyRulesOneChar(rules, s[0]);
      ApplyRulesIsSubstAll(s[1..], rules);
    }
  }

  /** A word of `str.split()`: non-empty and free of whitespace. */
  predicate IsWord(w: string) {
    |w| > 0 && forall i :: 0 <= i < |w| ==> !IsPySpace(w[i])
  }

  /** `str.split()` scanning `s` with the current word `cur` still open. */
  function SplitFrom(s: string, cur: string): seq<string>
    decreases |s|
  {
    if |s| == 0 then (if |cur| == 0 then [] else [cur])
    else if IsPySpace(s[0]) then
      var rest := SplitFrom(s[1..], []);
      if |cur| == 0 then rest else [cur] + rest
    else SplitFrom(s[1..], cur + [s[0]])
  }

  /** The scan yields words, made of characters of `s` and `cur`. */
  lemma {:induction false} SplitFromWords(s: string, cur: string)
    requires forall i :: 0 <= i < |cur| ==> !IsPySpace(cur[i])
    ensures forall k :: 0 <= k < |SplitFrom(s, cur)| ==> IsWord(SplitFrom(s, cur)[k])
    ensures forall k, x :: 0 <= k < |SplitFrom(s, cur)| && x in SplitFrom(s, cur)[k] ==> x in s || x in cur
    decreases |s|
  {
    if |s| > 0 {
      if IsPySpace(s[0]) {
        var rest := SplitFrom(s[1..], []);
        SplitFromWords(s[1..], []);
        var words := SplitFrom(s, cur);
        forall k, x | 0 <= k < |words| && x in words[k] ensures x in s || x in cur {
          if |cur| > 0 && k == 0 {
            assert words[k] == cur;
          } else {
            var j := if |cur| == 0 then k else k - 1;
            assert words[k] == rest[j];
            assert x in rest[j];
            assert x in s[1..];
            var i :| 0 <= i < |s[1..]| && s[1..][i] == x;
            assert s[i + 1] == x;
          }
        }
      } else {
        var cur' := cur + [s[0]];
        SplitFromWords(s[1..], cur');
        forall x | x in s[1..] || x in cur' ensures x in s || x in cur {
          if x in s[1..] {
            var i :| 0 <= i < |s[1..]| && s[1..][i] == x;
            assert s[i + 1] == x;
          }
        }
      }
    }
  }

  /** Python's `s.split()` with no separator. */
  function Split(s: string): seq<string>
  {
    SplitFrom(s, [])
  }

  /** `s.split()` yields words made of characters of `s`. */
  lemma {:induction false} SplitWords(s: string)
    ensures forall k :: 0 <= k < |Split(s)| ==> IsWord(Split(s)[k])
    ensures forall k, x :: 0 <= k < |Split(s)| && x in Split(s)[k] ==> x in s
  {
    SplitFromWords(s, []);
  }

  /** Python's `' '.join(words)`. */
  function Join(words: seq<string>): string
  {
    if |words| == 0 then ""
    else if |words| == 1 then words[0]
    else words[0] + " " + Join(words[1..])
  }

  /** Every character of the joined text is the space or comes from a word. */
  lemma {:induction false} JoinChars(words: seq<string>)
    ensures forall x :: x in Join(words) ==> x == ' ' || exists k :: 0 <= k < |words| && x in words[k]
  {
    if |words| > 1 {
      var rest := Join(words[1..]);
      JoinChars(words[1..]);
      assert Join(words) == words[0] + " " + rest;
      forall x | x in Join(words) && x != ' ' ensures exists k :: 0 <= k < |words| && x in words[k] {
        if x in words[0] {
        } else {
          assert x in rest;
          var k :| 0 <= k < |words[1..]| && x in words[1..][k];
          assert x in words[k + 1];
        }
      }
    }
  }

  /** Index of the first character at or after `i` that is not whitespace
      (or `|s|`). */
  function SkipSpaces(s: string, i: nat): (r: nat)
    requires i <= |s|
    ensures i <= r <= |s|
    decreases |s| - i
  {
    if i < |s| && IsPySpace(s[i]) then SkipSpaces(s, i + 1) else i
  }

  /** Python's `s.lstrip()`. */
  function StripLeft(s: string): string
  {
    s[SkipSpaces(s, 0)..]
  }

  lemma {:induction false} SkipSpacesSkips(s: string, i: nat)
    requires i <= |s|
    ensures SkipSpaces(s, i) < |s| ==> !IsPySpace(s[SkipSpaces(s, i)])
    ensures forall j :: i <= j < SkipSpaces(s, i) ==> IsPySpace(s[j])
    decreases |s| - i
  {
    if i < |s| && IsPySpace(s[i]) {
      SkipSpacesSkips(s, i + 1);
    }
  }

  /** `s.lstrip()` is a suffix of `s` that does not start with whitespace,
      and what it drops is whitespace. */
  lemma {:induction false} StripLeftSuffix(s: string)
    ensures |StripLeft(s)| <= |s| && StripLeft(s) == s[|s| - |StripLeft(s)|..]
    ensures |StripLeft(s)| > 0 ==> !IsPySpace(StripLeft(s)[0])
    ensures forall i :: 0 <= i < |s| - |StripLeft(s)| ==> IsPySpace(s[i])
  {
    SkipSpacesSkips(s, 0);
  }

  /** Length of `s` once the whitespace after position `n` is cut off. */
  function TrimSpaces(s: string, n: nat): (r: nat)
    requires n <= |s|
    ensures r <= n
  {
    if n > 0 && IsPySpace(s[n - 1]) then TrimSpaces(s, n - 1) else n
  }

  /** Python's `s.rstrip()`. */
  function StripRight(s: string): string
  {
    s[..TrimSpaces(s, |s|)]
  }

  lemma {:induction false} TrimSpacesTrims(s: string, n: nat)
    requires n <= |s|
    ensures TrimSpaces(s, n) > 0 ==> !IsPySpace(s[TrimSpaces(s, n) - 1])
    ensures forall j :: TrimSpaces(s, n) <= j < n ==> IsPySpace(s[j])
  {
    if n > 0 && IsPySpace(s[n - 1]) {
      TrimSpacesTrims(s, n - 1);
    }
  }

  /** `s.rstrip()` is a prefix of `s` that does not end with whitespace,
      and what it drops is whitespace. */
  lemma {:induction false} StripRightPrefix(s: string)
    ensures |StripRight(s)| <= |s| && StripRight(s) == s[..|StripRight(s)|]
    ensures |StripRight(s)| > 0 ==> !IsPySpace(StripRight(s)[|StripRight(s)| - 1])
    ensures forall i :: |StripRight(s)| <= i < |s| ==> IsPySpace(s[i])
  {
    TrimSpacesTrims(s, |s|);
  }

  /** Python's `s.strip()`. */
  function Strip(s: string): string
  {
    StripRight(StripLeft(s))
  }

  /** The shape of normalised text: no whitespace at either end, the only
      whitespace is the plain space, and never two whitespace characters
      next to each other. */
  predicate Collapsed(t: string) {
    && (|t| > 0 ==> !IsPySpace(t[0]) && !IsPySpace(t[|t| - 1]))
    && (forall i :: 0 <= i < |t| && IsPySpace(t[i]) ==> t[i] == ' ')
    && (forall i :: 0 <= i < |t| - 1 ==> !(IsPySpace(t[i]) && IsPySpace(t[i + 1])))
  }

  lemma {:induction false} JoinCollapsed(words: seq<string>)
    requires forall k :: 0 <= k < |words| ==> IsWord(words[k])
    ensures Collapsed(Join(words))
    ensures |words| > 0 ==> |Join(words)| > 0
  {
    if |words| > 1 {
      var rest := Join(words[1..]);
      JoinCollapsed(words[1..]);
      var w := words[0];
      var s := w + " " + rest;
      assert s == Join(words);
      forall i | 0 <= i < |s| - 1
        ensures !(IsPySpace(s[i]) && IsPySpace(s[i + 1]))
      {
        if i < |w| - 1 {
        } else if i == |w| - 1 {
        } else if i == |w| {
          assert s[i + 1] == rest[0];
        } else {
          assert s[i] == rest[i - |w| - 1];
        }
      }
      forall i | 0 <= i < |s| && IsPySpace(s[i]) ensures s[i] == ' ' {
        if i > |w| { assert s[i] == rest[i - |w| - 1]; }
      }
    }
  }

  /** Appending whitespace-free text to the open word. */
  lemma {:induction false} SplitFromWord(w: string, s: string, cur: string)
    requires forall i :: 0 <= i < |cur| ==> !IsPySpace(cur[i])
    requires forall i :: 0 <= i < |w| ==> !IsPySpace(w[i])
    ensures SplitFrom(w + s, cur) == SplitFrom(s, cur + w)
    decreases |w|
  {
    if w != [] {
      assert (w + s)[1..] == w[1..] + s;
      assert cur + [w[0]] + w[1..] == cur + w;
      SplitFromWord(w[1..], s, cur + [w[0]]);
    } else {
      assert w + s == s;
      assert cur + w == cur;
    }
  }

  /** A whitespace character ends the word being scanned: what follows is
      split on its own. */
  lemma {:induction false} SplitFromAtSpace(a: string, c: char, b: string, cur: string)
    requires IsPySpace(c)
    ensures SplitFrom(a + [c] + b, cur) == SplitFrom(a, cur) + SplitFrom(b, [])
    decreases |a|
  {
    if |a| == 0 {
      assert a + [c] + b == [c] + b;
      assert ([c] + b)[1..] == b;
    } else {
      assert (a + [c] + b)[0] == a[0];
      assert (a + [c] + b)[1..] == a[1..] + [c] + b;
      if IsPySpace(a[0]) {
        SplitFromAtSpace(a[1..], c, b, []);
        if |cur| > 0 {
          assert [cur] + (SplitFrom(a[1..], []) + SplitFrom(b, [])) == [cur] + SplitFrom(a[1..], []) + SplitFrom(b, []);
        }
      } else {
        SplitFromAtSpace(a[1..], c, b, cur + [a[0]]);
      }
    }
  }

  /** `str.split()` breaks at every whitespace character: the text on each
      side of it is split separately. With `Split([]) == []` and
      `SplitJoin` on a single word this fixes `Split` on every string. */
  lemma {:induction false} SplitAtSpace(a: string, c: char, b: string)
    requires IsPySpace(c)
    ensures Split(a + [c] + b) == Split(a) + Split(b)
  {
    SplitFromAtSpace(a, c, b, []);
  }

  /** Splitting joined words gives the words back. */
  lemma {:induction false} SplitJoin(words: seq<string>)
    requires forall k :: 0 <= k < |words| ==> IsWord(words[k])
    ensures Split(Join(words)) == words
  {
    if |words| == 1 {
      SplitFromWord(words[0], [], []);
      assert words[0] + [] == words[0];
      assert [] + words[0] == words[0];
    } else if |words| > 1 {
      var w, rest := words[0], Join(words[1..]);
      assert Join(words) == w + (" " + rest);
      SplitFromWord(w, " " + rest, []);
      assert [] + w == w;
      assert (" " + rest)[1..] == rest;
      assert SplitFrom(" " + rest, w) == [w] + SplitFrom(rest, []);
      SplitJoin(words[1..]);
      assert words == [w] + words[1..];
    }
  }

  /** Stripping text that has no whitespace at either end changes nothing. */
  lemma {:induction false} StripUnchanged(t: string)
    requires |t| > 0 ==> !IsPySpace(t[0]) && !IsPySpace(t[|t| - 1])
    ensures Strip(t) == t
  {
  }

  /** Reference definition: the non-whitespace characters of `s`, in order. */
  function NonSpace(s: string): string
  {
    if |s| == 0 then [] else (if IsPySpace(s[0]) then [] else [s[0]]) + NonSpace(s[1..])
  }

  /** The words run together. */
  function Concat(words: seq<string>): string
  {
    if |words| == 0 then [] else words[0] + Concat(words[1..])
  }

  lemma {:induction false} NonSpaceAppend(a: string, b: string)
    ensures NonSpace(a + b) == NonSpace(a) + NonSpace(b)
  {
    if |a| == 0 {
      assert a + b == b;
    } else {
      assert (a + b)[0] == a[0] && (a + b)[1..] == a[1..] + b;
      NonSpaceAppend(a[1..], b);
    }
  }

  /** Text made of whitespace only has no non-whitespace character. */
  lemma {:induction false} NonSpaceOfSpaces(s: string)
    requires forall i :: 0 <= i < |s| ==> IsPySpace(s[i])
    ensures NonSpace(s) == []
  {
    if |s| > 0 {
      NonSpaceOfSpaces(s[1..]);
    }
  }

  /** Text free of whitespace is all kept. */
  lemma {:induction false} NonSpaceOfWord(w: string)
    requires forall i :: 0 <= i < |w| ==> !IsPySpace(w[i])
    ensures NonSpace(w) == w
  {
    if |w| > 0 {
      NonSpaceOfWord(w[1..]);
      assert w == [w[0]] + w[1..];
    }
  }

  /** The `str.split` scan loses no non-whitespace character: its words run
      together are the open word followed by the non-whitespace characters
      of the rest, in order. */
  lemma {:induction false} SplitFromConcat(s: string, cur: string)
    ensures Concat(SplitFrom(s, cur)) == cur + NonSpace(s)
    decreases |s|
  {
    if |s| == 0 {
      assert cur + [] == cur;
    } else if IsPySpace(s[0]) {
      SplitFromConcat(s[1..], []);
      assert [] + NonSpace(s[1..]) == NonSpace(s[1..]);
      var rest := SplitFrom(s[1..], []);
      if |cur| > 0 {
        assert ([cur] + rest)[1..] == rest;
      }
    } else {
      SplitFromConcat(s[1..], cur + [s[0]]);
    }
  }

  /** `str.split()` keeps every non-whitespace character, in order. */
  lemma {:induction false} SplitConcat(s: string)
    ensures Concat(Split(s)) == NonSpace(s)
  {
    SplitFromConcat(s, []);
    assert [] + NonSpace(s) == NonSpace(s);
  }

  /** Joining words with spaces adds only whitespace. */
  lemma {:induction false} NonSpaceJoin(words: seq<string>)
    requires forall k :: 0 <= k < |words| ==> IsWord(words[k])
    ensures NonSpace(Join(words)) == Concat(words)
  {
    if |words| == 1 {
      NonSpaceOfWord(words[0]);
      assert Concat(words) == words[0] + Concat([]);
      assert words[0] + [] == words[0];
    } else if |words| > 1 {
      var rest := Join(words[1..]);
      NonSpaceJoin(words[1..]);
      NonSpaceOfWord(words[0]);
      NonSpaceAppend(words[0], " " + rest);
      NonSpaceAppend(" ", rest);
      assert words[0] + " " + rest == words[0] + (" " + rest);
      assert NonSpace(" ") == [];
    }
  }

  /** Stripping removes only whitespace. */
  lemma {:induction false} NonSpaceStrip(t: string)
    ensures NonSpace(Strip(t)) == NonSpace(t)
  {
    var l := StripLeft(t);
    var n := StripRight(l);
    StripLeftSuffix(t);
    StripRightPrefix(l);
    var pre, post := t[..|t| - |l|], l[|n|..];
    assert t == pre + l;
    assert l == n + post;
    NonSpaceOfSpaces(pre);
    NonSpaceOfSpaces(post);
    NonSpaceAppend(pre, l);
    NonSpaceAppend(n, post);
    assert [] + NonSpace(l) == NonSpace(l);
    assert NonSpace(n) + [] == NonSpace(n);
  }

  /** Normalising keeps every non-whitespace character of the text after
      the rules, in order: each character that is no cleanable source
      survives, and each source becomes its replacement. */
  lemma {:induction false} NormalizeKeepsText(s: string)
    ensures NonSpace(Normalize(s)) == NonSpace(ApplyRules(s, CleanableChars))
    ensures NonSpace(Normalize(s)) == NonSpace(SubstAll(CleanableChars, s))
  {
    var u := ApplyRules(s, CleanableChars);
    var words := Split(u);
    SplitWords(u);
    NonSpaceStrip(Join(words));
    NonSpaceJoin(words);
    SplitConcat(u);
    CleanableSourcesNotReplaced();
    ApplyRulesIsSubstAll(s, CleanableChars);
  }

  /** Missing values clean to the empty string; anything else is `str(v)`
      normalised. */
  function CleanText(v: Cell): string
  {
    if v.Missing? then "" else Normalize(Display(v))
  }

  /** Splitting and re-joining brings back no rule source that was absent,
      provided no source is the space that joins the words. */
  lemma {:induction false} JoinedWordsHaveNoSource(u: string, rules: seq<CleanRule>)
    requires forall k :: 0 <= k < |rules| ==> rules[k].source !in u && rules[k].source != ' '
    ensures forall k :: 0 <= k < |rules| ==> rules[k].source !in Join(Split(u))
  {
    SplitWords(u);
    JoinChars(Split(u));
  }

  /** The non-missing branch of `clean_text`: apply the rules, split on
      whitespace, join with single spaces, strip. */
  function Normalize(s: string): string
  {
    Strip(Join(Split(ApplyRules(s, CleanableChars))))
  }

  /** Stripping keeps only characters of the stripped text. */
  lemma {:induction false} StripChars(j: string)
    ensures forall x :: x in Strip(j) ==> x in j
  {
    var l := StripLeft(j);
    StripLeftSuffix(j);
    StripRightPrefix(l);
    forall x | x in Strip(j) ensures x in j {
      var n := Strip(j);
      var i :| 0 <= i < |n| && n[i] == x;
      assert l[i] == x;
      assert j[|j| - |l| + i] == x;
    }
  }

  /** Splitting, joining and stripping keep only characters of the text and
      the joining space. */
  lemma {:induction false} SplitJoinStripChars(u: string)
    ensures forall x :: x in Strip(Join(Split(u))) ==> x in u || x == ' '
  {
    var words := Split(u);
    StripChars(Join(words));
    SplitWords(u);
    JoinChars(words);
  }

  /** Every character of normalised text comes from the input, from a
      replacement or is the joining space. */
  lemma {:induction false} NormalizeProvenance(s: string)
    ensures forall x :: x in Normalize(s) ==> x in s || x == ' ' || InSomeReplacement(CleanableChars, x)
  {
    SplitJoinStripChars(ApplyRules(s, CleanableChars));
    ApplyRulesChars(s, CleanableChars);
  }

  /** Normalised text is collapsed, holds no cleanable source character,
      and splits into the same words as the text with the rules applied. */
  lemma {:induction false} NormalizeShape(s: string)
    ensures Collapsed(Normalize(s))
    ensures forall k :: 0 <= k < |CleanableChars| ==> CleanableChars[k].source !in Normalize(s)
    ensures Split(Normalize(s)) == Split(ApplyRules(s, CleanableChars))
  {
    var u := ApplyRules(s, CleanableChars);
    var words := Split(u);
    SplitWords(u);
    JoinCollapsed(words);
    StripUnchanged(Join(words));
    assert Normalize(s) == Join(words);
    SplitJoin(words);
    CleanableSourcesNotReplaced();
    ApplyRulesChars(s, CleanableChars);
    SpaceIsNotSource();
    JoinedWordsHaveNoSource(u, CleanableChars);
  }

  /** What `clean_text` returns: `""` for a missing value; otherwise
      collapsed text with no cleanable source character, made of the same
      words as the value once the rules are applied. */
  lemma {:induction false} CleanTextShape(v: Cell)
    ensures v.Missing? ==> CleanText(v) == ""
    ensures Collapsed(CleanText(v))
    ensures forall k :: 0 <= k < |CleanableChars| ==> CleanableChars[k].source !in CleanText(v)
    ensures !v.Missing? ==> Split(CleanText(v)) == Split(ApplyRules(Display(v), CleanableChars))
    ensures !v.Missing? ==> NonSpace(CleanText(v)) == NonSpace(SubstAll(CleanableChars, Display(v)))
  {
    if !v.Missing? {
      NormalizeShape(Display(v));
      NormalizeKeepsText(Display(v));
    }
  }

  /** Cleaning never introduces an unclenable character. */
  lemma {:induction false} NormalizeKeepsClean(s: string)
    requires forall i :: 0 <= i < |s| ==> !IsUnclenableChar(s[i])
    ensures forall i :: 0 <= i < |Normalize(s)| ==> !IsUnclenableChar(Normalize(s)[i])
  {
    var r := Normalize(s);
    NormalizeProvenance(s);
    ReplacementsAreNotUnclenable();
    forall i | 0 <= i < |r| ensures !IsUnclenableChar(r[i]) {
      assert r[i] in r;
    }
  }

  /** Normalising normalised text changes nothing: no source character is
      left to replace, and splitting the joined words gives them back. */
  lemma {:induction false} NormalizeIdempotent(s: string)
    ensures Normalize(Normalize(s)) == Normalize(s)
  {
    var u := ApplyRules(s, CleanableChars);
    var words := Split(u);
    var t := Join(words);
    SplitWords(u);
    JoinCollapsed(words);
    StripUnchanged(t);
    assert Normalize(s) == t;
    NormalizeShape(s);
    ApplyRulesChars(t, CleanableChars);
    SplitJoin(words);
    assert Normalize(t) == Strip(t);
  }

  /** The empty text cleans to itself. */
  lemma {:induction false} NormalizeEmpty()
    ensures Normalize("") == ""
  {
    CleanableSourcesNotReplaced();
    ApplyRulesIsSubstAll("", CleanableChars);
  }

  /** `clean_text` is idempotent. */
  lemma {:induction false} CleanTextIdempotent(v: Cell)
    ensures CleanText(Text(CleanText(v))) == CleanText(v)
  {
    match v
    case Missing => NormalizeEmpty();
    case Text(s) => NormalizeIdempotent(s);
    case Other(rendered) => NormalizeIdempotent(rendered);
  }
}
