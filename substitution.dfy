/**
 * The word-substitution engine: the configured rules are compiled into one
 * alternation pattern `(w1)|(w2)|...|(wn)` with the global flag, and every
 * match is rewritten to the replacement of the first rule whose word equals
 * the matched text.
 *
 * Rule words are restricted to non-empty literals without regular-expression
 * metacharacters; with that restriction the alternative `(w)` matches at a
 * position exactly when `w` is a prefix of the remaining text.
 */
module Substitution {
  import opened Relay

  /** One configured rule: matches of `word` are rewritten to `replacement`. */
  datatype Rule = Rule(word: string, replacement: string)

  /** The characters that have a meaning in a JavaScript regular expression. */
  predicate IsRegexMeta(c: char)
  {
    c in "\\^$.|?*+()[]{}"
  }

  predicate IsLiteralWord(w: string)
  {
    |w| > 0 && forall i :: 0 <= i < |w| ==> !IsRegexMeta(w[i])
  }

  predicate ValidRules(rules: seq<Rule>)
  {
    forall k :: 0 <= k < |rules| ==> IsLiteralWord(rules[k].word)
  }

  function Words(rules: seq<Rule>): (ws: seq<string>)
    ensures |ws| == |rules|
    ensures forall k :: 0 <= k < |rules| ==> ws[k] == rules[k].word
  {
    if rules == [] then [] else [rules[0].word] + Words(rules[1..])
  }

  // ---------------------------------------------------------------------
  // Compiling the rules into one pattern

  function Group(w: string): string
  {
    "(" + w + ")"
  }

  /** The pattern source: each word in a group, the groups joined by '|'. */
  function CreatePattern(rules: seq<Rule>): (r: string)
    // no rules give the empty pattern; otherwise it opens and closes with a group
    ensures rules == [] <==> r == ""
    ensures rules != [] ==> 2 <= |r| && r[0] == '(' && r[|r| - 1] == ')'
  {
    if rules == [] then ""
    else if |rules| == 1 then Group(rules[0].word)
    else Group(rules[0].word) + "|" + CreatePattern(rules[1..])
  }

  /** The index of the first ')' of `s`, or `|s|` when there is none. */
  function CloseIndex(s: string): (k: nat)
    ensures k <= |s|
    ensures forall i :: 0 <= i < k ==> s[i] != ')'
    ensures k < |s| ==> s[k] == ')'
  {
    if s == [] || s[0] == ')' then 0 else 1 + CloseIndex(s[1..])
  }

  /** Reads a pattern `(w1)|...|(wn)` back into its alternatives. */
  function ParseAlternation(p: string): Option<seq<string>>
  {
    if p == [] then Some([]) else ParseGroups(p)
  }

  function ParseGroups(p: string): Option<seq<string>>
    decreases |p|
  {
    if p == [] || p[0] != '(' then None
    else
      var k := CloseIndex(p[1..]);
      if k == |p| - 1 then None
      else
        var w := p[1..k + 1];
        var rest := p[k + 2..];
        if rest == [] then Some([w])
        else if rest[0] != '|' then None
        else match ParseGroups(rest[1..])
          case None => None
          case Some(ws) => Some([w] + ws)
  }

  lemma {:induction false} CloseIndexAfterWord(w: string, rest: string)
    requires forall i :: 0 <= i < |w| ==> w[i] != ')'
    ensures CloseIndex(w + ")" + rest) == |w|
  {
    if w != [] {
      assert (w + ")" + rest)[1..] == w[1..] + ")" + rest;
      CloseIndexAfterWord(w[1..], rest);
    }
  }

  /** Parsing a pattern that starts with the group of a literal word. */
  lemma ParseLeadingGroup(w: string, rest: string)
    requires forall i :: 0 <= i < |w| ==> w[i] != ')'
    ensures ParseGroups(Group(w) + rest) ==
      if rest == [] then Some([w])
      else if rest[0] != '|' then None
      else match ParseGroups(rest[1..])
        case None => None
        case Some(ws) => Some([w] + ws)
  {
    var p := Group(w) + rest;
    var inner := w + ")" + rest;
    assert p == "(" + inner by {
      assert Group(w) == "(" + (w + ")");
      AppendAssoc("(", w + ")", rest);
      AppendAssoc(w, ")", rest);
    }
    assert p[0] == '(' && p[1..] == inner;
    CloseIndexAfterWord(w, rest);
    assert inner[..|w|] == w && inner[|w| + 1..] == rest;
    assert p[1..|w| + 1] == w;
    assert p[|w| + 2..] == rest;
  }

  lemma LiteralWordHasNoClose(w: string)
    requires IsLiteralWord(w)
    ensures forall i :: 0 <= i < |w| ==> w[i] != ')'
  {
  }

  /**
   * The compiled pattern is unambiguous for literal words: its alternatives,
   * read back, are exactly the rule words in their configured order.
   */
  lemma {:induction false} PatternRoundTrip(rules: seq<Rule>)
    requires ValidRules(rules)
    ensures ParseAlternation(CreatePattern(rules)) == Some(Words(rules))
  {
    if rules != [] {
      var w := rules[0].word;
      LiteralWordHasNoClose(w);
      if |rules| == 1 {
        ParseLeadingGroup(w, "");
        assert Group(w) + "" == Group(w);
        assert Words(rules) == [w];
      } else {
        assert ValidRules(rules[1..]) by {
          forall k | 0 <= k < |rules[1..]| ensures IsLiteralWord(rules[1..][k].word) {
            assert rules[1..][k] == rules[k + 1];
          }
        }
        var tail := CreatePattern(rules[1..]);
        ParseLeadingGroup(w, "|" + tail);
        assert Group(w) + "|" + tail == Group(w) + ("|" + tail);
        assert ("|" + tail)[1..] == tail;
        PatternRoundTrip(rules[1..]);
        assert tail != [] by {
          assert IsLiteralWord(rules[1].word);
        }
        assert ParseAlternation(tail) == ParseGroups(tail);
        assert CreatePattern(rules) == Group(w) + "|" + tail;
        assert Words(rules) == [w] + Words(rules[1..]);
      }
    }
  }

  // ---------------------------------------------------------------------
  // Matching and replacing

  /** Some rule word occurs in `s` at position `i`. */
  predicate MatchesAt(rules: seq<Rule>, s: string, i: nat)
    requires i <= |s|
  {
    exists j :: 0 <= j < |rules| && rules[j].word <= s[i..]
  }

  /** No rule word occurs anywhere in `s`. */
  predicate NoOccurrence(rules: seq<Rule>, s: string)
  {
    forall i :: 0 <= i <= |s| ==> !MatchesAt(rules, s, i)
  }

  /**
   * The alternative the pattern takes at the start of `s`: the first rule,
   * in configured order, whose word is a prefix of `s` (see FirstMatchSpec).
   */
  function FirstMatch(rules: seq<Rule>, s: string): (r: Option<nat>)
    // the alternative taken is a rule whose word starts `s`
    ensures r.Some? ==> r.value < |rules| && rules[r.value].word <= s
  {
    if rules == [] then None
    else if rules[0].word <= s then Some(0)
    else match FirstMatch(rules[1..], s)
      case None => None
      case Some(k) => Some(k + 1)
  }

  /**
   * Alternation order: the pattern matches at the start of `s` exactly when
   * some word is a prefix there, and then it takes the earliest-listed one.
   */
  lemma {:induction false} FirstMatchSpec(rules: seq<Rule>, s: string)
    ensures FirstMatch(rules, s).Some? ==>
      rules[FirstMatch(rules, s).value].word <= s &&
      forall j :: 0 <= j < FirstMatch(rules, s).value ==> !(rules[j].word <= s)
    ensures FirstMatch(rules, s).None? <==> !MatchesAt(rules, s, 0)
  {
    if rules != [] && !(rules[0].word <= s) {
      FirstMatchSpec(rules[1..], s);
      assert s[0..] == s;
      assert forall j :: 1 <= j < |rules| ==> rules[j] == rules[1..][j - 1];
    }
  }

  /**
   * The replacement callback: the replacement of the first rule whose word
   * equals the matched text, or the matched text itself when none does
   * (see SubstituteSpec).
   */
  function Substitute(rules: seq<Rule>, m: string): (r: string)
    // a match is changed only into the replacement of a rule whose word equals it
    ensures r != m ==> exists j :: 0 <= j < |rules| && rules[j].word == m && r == rules[j].replacement
  {
    if rules == [] then m
    else if rules[0].word == m then rules[0].replacement
    else Substitute(rules[1..], m)
  }

  /** `find` in the callback: the first rule with an equal word decides, and no rule keeps the match. */
  lemma {:induction false} SubstituteSpec(rules: seq<Rule>, m: string)
    ensures forall j :: (0 <= j < |rules| && rules[j].word == m &&
                         forall i :: 0 <= i < j ==> rules[i].word != m) ==> Substitute(rules, m) == rules[j].replacement
    ensures (forall j :: 0 <= j < |rules| ==> rules[j].word != m) ==> Substitute(rules, m) == m
  {
    if rules != [] && rules[0].word != m {
      SubstituteSpec(rules[1..], m);
      assert forall j :: 1 <= j < |rules| ==> rules[j] == rules[1..][j - 1];
    }
  }

  /**
   * `text.replace(pattern, callback)` with the global flag: scan from the
   * left; at a position where some word matches, rewrite the match and go on
   * after it; elsewhere keep the character and go on at the next one.
   */
  function ReplaceText(rules: seq<Rule>, text: string): (r: string)
    requires ValidRules(rules)
    // with no rules configured the text comes back unchanged
    ensures rules == [] ==> r == text
    decreases |text|
  {
    if text == [] then []
    else match FirstMatch(rules, text)
      case None => [text[0]] + ReplaceText(rules, text[1..])
      case Some(k) =>
        assert IsLiteralWord(rules[k].word);
        FirstMatchSpec(rules, text);
        Substitute(rules, rules[k].word) + ReplaceText(rules, text[|rules[k].word|..])
  }

  /** Two texts with the same matching rules at their start select the same alternative. */
  lemma {:induction false} FirstMatchSame(rules: seq<Rule>, s: string, t: string)
    requires forall j :: 0 <= j < |rules| ==> (rules[j].word <= s <==> rules[j].word <= t)
    ensures FirstMatch(rules, s) == FirstMatch(rules, t)
  {
    if rules != [] && !(rules[0].word <= s) {
      assert forall j :: 0 <= j < |rules[1..]| ==> rules[1..][j] == rules[j + 1];
      FirstMatchSame(rules[1..], s, t);
    }
  }

  lemma MatchesAtShift(rules: seq<Rule>, s: string, d: nat, i: nat)
    requires d <= |s| && i <= |s| - d
    ensures MatchesAt(rules, s[d..], i) <==> MatchesAt(rules, s, d + i)
  {
  }

  /** Where no word matches, the scan keeps one character and moves on. */
  lemma ReplaceUnmatchedHead(rules: seq<Rule>, text: string)
    requires ValidRules(rules)
    requires text != [] && !MatchesAt(rules, text, 0)
    ensures ReplaceText(rules, text) == [text[0]] + ReplaceText(rules, text[1..])
  {
    FirstMatchSpec(rules, text);
  }

  /**
   * The alternative the pattern takes at the start of `s` is rule `k`: its
   * word is a prefix of `s` and no earlier-listed word is.
   */
  predicate TakesAlternative(rules: seq<Rule>, s: string, k: nat)
  {
    k < |rules| && rules[k].word <= s &&
    forall j :: 0 <= j < k ==> !(rules[j].word <= s)
  }

  /**
   * Where the pattern takes alternative `k`, the scan rewrites the whole
   * match and resumes right after it, so matches do not overlap.
   */
  lemma ReplaceMatchedHead(rules: seq<Rule>, text: string, k: nat)
    requires ValidRules(rules)
    requires TakesAlternative(rules, text, k)
    ensures 0 < |rules[k].word| <= |text|
    ensures ReplaceText(rules, text) ==
      Substitute(rules, rules[k].word) + ReplaceText(rules, text[|rules[k].word|..])
  {
    assert IsLiteralWord(rules[k].word);
    FirstMatchSpec(rules, text);
    assert text[0..] == text;
    assert MatchesAt(rules, text, 0);
    var k' := FirstMatch(rules, text).value;
    assert !(k' < k) && !(k < k');
  }

  /** Text that contains no rule word comes back unchanged. */
  lemma {:induction false} ReplaceWithoutOccurrence(rules: seq<Rule>, text: string)
    requires ValidRules(rules)
    requires NoOccurrence(rules, text)
    ensures ReplaceText(rules, text) == text
  {
    if text != [] {
      assert !MatchesAt(rules, text, 0);
      ReplaceUnmatchedHead(rules, text);
      forall i | 0 <= i <= |text[1..]| ensures !MatchesAt(rules, text[1..], i) {
        MatchesAtShift(rules, text, 1, i);
      }
      ReplaceWithoutOccurrence(rules, text[1..]);
      assert text == [text[0]] + text[1..];
    }
  }

  /** Positions before the first match are copied through unchanged. */
  lemma {:induction false} ReplaceSkipsUnmatched(rules: seq<Rule>, text: string, p: nat)
    requires ValidRules(rules)
    requires p <= |text|
    requires forall i :: 0 <= i < p ==> !MatchesAt(rules, text, i)
    ensures ReplaceText(rules, text) == text[..p] + ReplaceText(rules, text[p..])
    decreases p, 1
  {
    if p > 0 {
      var tail := text[1..];
      calc {
        ReplaceText(rules, text);
        { assert !MatchesAt(rules, text, 0); ReplaceUnmatchedHead(rules, text); }
        [text[0]] + ReplaceText(rules, tail);
        { SkipTail(rules, text, p); }
        [text[0]] + (tail[..p - 1] + ReplaceText(rules, text[p..]));
        { AppendAssoc([text[0]], tail[..p - 1], ReplaceText(rules, text[p..])); }
        ([text[0]] + tail[..p - 1]) + ReplaceText(rules, text[p..]);
        { assert text[..p] == [text[0]] + tail[..p - 1]; }
        text[..p] + ReplaceText(rules, text[p..]);
      }
    }
  }

  /** The inductive step of ReplaceSkipsUnmatched, on the text after its first character. */
  lemma {:induction false} SkipTail(rules: seq<Rule>, text: string, p: nat)
    requires ValidRules(rules)
    requires 0 < p <= |text|
    requires forall i :: 0 <= i < p ==> !MatchesAt(rules, text, i)
    ensures ReplaceText(rules, text[1..]) == text[1..][..p - 1] + ReplaceText(rules, text[p..])
    decreases p, 0
  {
    var tail := text[1..];
    forall i | 0 <= i < p - 1 ensures !MatchesAt(rules, tail, i) {
      MatchesAtShift(rules, text, 1, i);
    }
    ReplaceSkipsUnmatched(rules, tail, p - 1);
    assert tail[p - 1..] == text[p..];
  }

  /**
   * A text with exactly one match, at position `p`: the match is rewritten
   * by the alternative the pattern picks there, and every other character is
   * kept.
   */
  lemma SingleOccurrence(rules: seq<Rule>, text: string, p: nat, k: nat)
    requires ValidRules(rules)
    requires p < |text|
    requires forall i :: 0 <= i <= |text| && i != p ==> !MatchesAt(rules, text, i)
    requires TakesAlternative(rules, text[p..], k)
    ensures p + |rules[k].word| <= |text|
    ensures ReplaceText(rules, text) ==
      text[..p] + Substitute(rules, rules[k].word) + text[p + |rules[k].word|..]
  {
    var w := rules[k].word;
    var rest := text[p..];
    assert 0 < |w| <= |rest| by {
      ReplaceMatchedHead(rules, rest, k);
    }
    var q := p + |w|;
    var after := text[q..];
    assert ReplaceText(rules, rest) == Substitute(rules, w) + ReplaceText(rules, after) by {
      ReplaceMatchedHead(rules, rest, k);
      assert rest[|w|..] == after;
    }
    assert ReplaceText(rules, text) == text[..p] + ReplaceText(rules, rest) by {
      ReplaceSkipsUnmatched(rules, text, p);
    }
    assert forall i :: q <= i <= |text| ==> !MatchesAt(rules, text, i);
    SuffixUnchanged(rules, text, q);
    SubstituteBetween(ReplaceText(rules, text), text[..p], ReplaceText(rules, rest), Substitute(rules, w),
                      ReplaceText(rules, after), after);
  }

  lemma SubstituteBetween(whole: string, before: string, rest: string, sub: string, tail: string, after: string)
    requires whole == before + rest && rest == sub + tail && tail == after
    ensures whole == before + sub + after
  {
    AppendAssoc(before, sub, after);
  }

  /** The part of a text after its last match comes back unchanged. */
  lemma SuffixUnchanged(rules: seq<Rule>, text: string, q: nat)
    requires ValidRules(rules)
    requires q <= |text|
    requires forall i :: q <= i <= |text| ==> !MatchesAt(rules, text, i)
    ensures ReplaceText(rules, text[q..]) == text[q..]
  {
    NoOccurrenceInSuffix(rules, text, q);
    ReplaceWithoutOccurrence(rules, text[q..]);
  }

  lemma NoOccurrenceInSuffix(rules: seq<Rule>, text: string, q: nat)
    requires q <= |text|
    requires forall i :: q <= i <= |text| ==> !MatchesAt(rules, text, i)
    ensures NoOccurrence(rules, text[q..])
  {
    forall i | 0 <= i <= |text[q..]| ensures !MatchesAt(rules, text[q..], i) {
      MatchesAtShift(rules, text, q, i);
    }
  }

  /** No rule word that occurs in `a + b` at a position inside `a` reaches into `b`. */
  predicate NoMatchCrosses(rules: seq<Rule>, a: string, b: string)
  {
    forall i, j :: 0 <= i < |a| && 0 <= j < |rules| && rules[j].word <= (a + b)[i..] ==>
      i + |rules[j].word| <= |a|
  }

  lemma NoMatchCrossesHead(rules: seq<Rule>, a: string, b: string)
    requires a != [] && NoMatchCrosses(rules, a, b)
    ensures forall j :: 0 <= j < |rules| ==> (rules[j].word <= a + b <==> rules[j].word <= a)
  {
    var s := a + b;
    assert s[0..] == s;
    forall j | 0 <= j < |rules| ensures rules[j].word <= s <==> rules[j].word <= a {
      if rules[j].word <= s {
        assert |rules[j].word| <= |a|;
        assert s[..|rules[j].word|] == a[..|rules[j].word|];
      }
    }
  }

  lemma NoMatchCrossesShift(rules: seq<Rule>, a: string, b: string, d: nat)
    requires d <= |a| && NoMatchCrosses(rules, a, b)
    ensures NoMatchCrosses(rules, a[d..], b)
  {
    forall i, j | 0 <= i < |a[d..]| && 0 <= j < |rules| && rules[j].word <= (a[d..] + b)[i..]
      ensures i + |rules[j].word| <= |a[d..]|
    {
      assert (a[d..] + b)[i..] == (a + b)[d + i..];
    }
  }

  /** One step of the scan over `a + b` takes the same step as over `a` alone. */
  lemma ConcatHead(rules: seq<Rule>, a: string, b: string) returns (d: nat, head: string)
    requires ValidRules(rules)
    requires a != [] && NoMatchCrosses(rules, a, b)
    ensures 0 < d <= |a|
    ensures ReplaceText(rules, a) == head + ReplaceText(rules, a[d..])
    ensures ReplaceText(rules, a + b) == head + ReplaceText(rules, a[d..] + b)
  {
    var s := a + b;
    assert FirstMatch(rules, s) == FirstMatch(rules, a) by {
      NoMatchCrossesHead(rules, a, b);
      FirstMatchSame(rules, s, a);
    }
    if FirstMatch(rules, a).Some? {
      var k := FirstMatch(rules, a).value;
      d, head := |rules[k].word|, Substitute(rules, rules[k].word);
      FirstMatchSpec(rules, a);
      FirstMatchSpec(rules, s);
      ReplaceMatchedHead(rules, a, k);
      ReplaceMatchedHead(rules, s, k);
    } else {
      d, head := 1, [a[0]];
      FirstMatchSpec(rules, a);
      FirstMatchSpec(rules, s);
      ReplaceUnmatchedHead(rules, a);
      ReplaceUnmatchedHead(rules, s);
    }
    DropOfAppend(a, b, d);
  }

  /**
   * Replacement is local: when no match starting in `a` reaches into `b`,
   * rewriting `a + b` rewrites `a` and `b` separately.
   */
  lemma {:induction false} ReplaceConcat(rules: seq<Rule>, a: string, b: string)
    requires ValidRules(rules)
    requires NoMatchCrosses(rules, a, b)
    ensures ReplaceText(rules, a + b) == ReplaceText(rules, a) + ReplaceText(rules, b)
  {
    if a == [] {
      assert a + b == b;
    } else {
      var d, head := ConcatHead(rules, a, b);
      NoMatchCrossesShift(rules, a, b, d);
      ReplaceConcat(rules, a[d..], b);
      var x, y := ReplaceText(rules, a[d..]), ReplaceText(rules, b);
      calc {
        ReplaceText(rules, a + b);
        head + ReplaceText(rules, a[d..] + b);
        head + (x + y);
        { AppendAssoc(head, x, y); }
        (head + x) + y;
        ReplaceText(rules, a) + y;
      }
    }
  }

  lemma AppendAssoc(p: string, q: string, r: string)
    ensures p + (q + r) == (p + q) + r
  {
  }

  lemma DropOfAppend(a: string, b: string, d: nat)
    requires d <= |a|
    ensures (a + b)[d..] == a[d..] + b
  {
  }

  /** Rules that rewrite every word to itself leave every text unchanged. */
  lemma {:induction false} IdentityRulesKeepText(rules: seq<Rule>, text: string)
    requires ValidRules(rules)
    requires forall j :: 0 <= j < |rules| ==> rules[j].replacement == rules[j].word
    ensures ReplaceText(rules, text) == text
  {
    if text != [] {
      match FirstMatch(rules, text)
      case None =>
        assert ReplaceText(rules, text) == [text[0]] + ReplaceText(rules, text[1..]) by {
          FirstMatchSpec(rules, text);
          ReplaceUnmatchedHead(rules, text);
        }
        IdentityRulesKeepText(rules, text[1..]);
        assert text == [text[0]] + text[1..];
      case Some(k) =>
        var w := rules[k].word;
        assert 0 < |w| <= |text| && ReplaceText(rules, text) == Substitute(rules, w) + ReplaceText(rules, text[|w|..]) by {
          FirstMatchSpec(rules, text);
          ReplaceMatchedHead(rules, text, k);
        }
        assert Substitute(rules, w) == w by {
          MatchReplacement(rules, k);
        }
        IdentityRulesKeepText(rules, text[|w|..]);
        assert text == text[..|w|] + text[|w|..];
        assert text[..|w|] == w by {
          FirstMatchSpec(rules, text);
        }
    }
  }

  /** Among the rules up to `k`, some first one carries the word of rule `k`. */
  lemma {:induction false} FirstEqualWord(rules: seq<Rule>, k: nat)
    requires k < |rules|
    ensures exists j :: (0 <= j <= k && rules[j].word == rules[k].word &&
                         forall i :: 0 <= i < j ==> rules[i].word != rules[k].word)
  {
    if exists i :: 0 <= i < k && rules[i].word == rules[k].word {
      var i :| 0 <= i < k && rules[i].word == rules[k].word;
      FirstEqualWord(rules, i);
    } else {
      assert 0 <= k <= k && rules[k].word == rules[k].word;
    }
  }

  /**
   * The text that replaces a match of rule `k`'s word is the replacement of
   * the earliest rule with that same word, which may come before `k`.
   */
  lemma MatchReplacement(rules: seq<Rule>, k: nat)
    requires k < |rules|
    ensures exists j :: (0 <= j <= k && rules[j].word == rules[k].word &&
                         (forall i :: 0 <= i < j ==> rules[i].word != rules[k].word) &&
                         Substitute(rules, rules[k].word) == rules[j].replacement)
  {
    FirstEqualWord(rules, k);
    SubstituteSpec(rules, rules[k].word);
  }
}
