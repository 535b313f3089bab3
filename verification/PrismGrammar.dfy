/** Grammars: named lists of patterns, each possibly holding a grammar of its own,
    and the oracle that stands for the regular-expression engine. */
module PrismGrammar {
  import opened Wrappers
  import opened PrismTokens

  datatype Pattern = Pattern(
    regex: nat,
    lookbehind: bool,
    greedy: bool,
    alias: seq<string>,
    inside: Option<Grammar>)

  // An entry whose value is falsy is skipped by the walk, as is an empty array of patterns.
  datatype Entry = Entry(name: string, patterns: seq<Pattern>)

  // `rest` is a grammar to be merged in when the grammar is first used.
  datatype Grammar = Grammar(entries: seq<Entry>, rest: Option<Grammar>)

  // One pattern as the walk meets it: the `ordinal`-th pattern of the entry named `kind`.
  datatype Step = Step(kind: string, ordinal: nat, pattern: Pattern)

  // ----- merging `rest`

  /** Assignment of a property: the entry of that name keeps its place, a new name goes last. */
  function Put(es: seq<Entry>, e: Entry): seq<Entry> {
    if es == [] then [e]
    else if es[0].name == e.name then [e] + es[1..]
    else [es[0]] + Put(es[1..], e)
  }

  function PutAll(es: seq<Entry>, more: seq<Entry>): seq<Entry>
    decreases |more|
  {
    if more == [] then es else PutAll(Put(es, more[0]), more[1..])
  }

  /** The entries after the merge. A `rest` inside `rest` is copied over and then deleted, so
      it is lost. */
  function Merged(g: Grammar): seq<Entry> {
    match g.rest
    case None => g.entries
    case Some(r) => PutAll(g.entries, r.entries)
  }

  function Names(es: seq<Entry>): set<string> {
    if es == [] then {} else {es[0].name} + Names(es[1..])
  }

  /** The names of a grammar, of its `rest`, of the `rest` in that, and so on. */
  function ChainNames(g: Grammar): set<string> {
    Names(g.entries) + match g.rest case None => {} case Some(r) => ChainNames(r)
  }

  lemma {:induction false} PutNames(es: seq<Entry>, e: Entry)
    ensures Names(Put(es, e)) == Names(es) + {e.name}
  {
    if es != [] {
      if es[0].name != e.name {
        PutNames(es[1..], e);
      }
      assert Put(es, e)[1..] == if es[0].name == e.name then es[1..] else Put(es[1..], e);
    }
  }

  lemma {:induction false} PutAllNames(es: seq<Entry>, more: seq<Entry>)
    ensures Names(PutAll(es, more)) == Names(es) + Names(more)
    decreases |more|
  {
    if more != [] {
      PutNames(es, more[0]);
      PutAllNames(Put(es, more[0]), more[1..]);
    }
  }

  /** A merge does not look at a `rest` inside `rest`; all names on the chain survive it exactly when
      those further down are among the grammar's own or its `rest`'s. */
  lemma RestInRestLost(g: Grammar)
    requires g.rest.Some?
    ensures Merged(g) == Merged(g.(rest := Some(g.rest.value.(rest := None))))
    ensures var own, inner := Names(g.entries) + Names(g.rest.value.entries), g.rest.value.rest;
            && Names(Merged(g)) == own
            && (ChainNames(g) <= Names(Merged(g)) <==> inner.None? || ChainNames(inner.value) <= own)
  {
    PutAllNames(g.entries, g.rest.value.entries);
  }

  /** The patterns a name stands for. */
  function Lookup(es: seq<Entry>, name: string): Option<seq<Pattern>> {
    if es == [] then None else if es[0].name == name then Some(es[0].patterns) else Lookup(es[1..], name)
  }

  lemma {:induction false} PutLookup(es: seq<Entry>, e: Entry, name: string)
    ensures Lookup(Put(es, e), name) == if e.name == name then Some(e.patterns) else Lookup(es, name)
  {
    if es == [] {
      assert [e][1..] == [];
    } else {
      if es[0].name != e.name {
        PutLookup(es[1..], e, name);
      }
      assert Put(es, e)[1..] == if es[0].name == e.name then es[1..] else Put(es[1..], e);
    }
  }

  lemma {:induction false} PutAllLookup(es: seq<Entry>, more: seq<Entry>, name: string)
    requires DistinctNames(more)
    ensures Lookup(PutAll(es, more), name)
            == if Lookup(more, name).Some? then Lookup(more, name) else Lookup(es, name)
    decreases |more|
  {
    if more != [] {
      PutLookup(es, more[0], name);
      PutAllLookup(Put(es, more[0]), more[1..], name);
      if more[0].name == name {
        LookupNone(more[1..], name);
      }
    }
  }

  lemma {:induction false} LookupNone(es: seq<Entry>, name: string)
    requires forall k | 0 <= k < |es| :: es[k].name != name
    ensures Lookup(es, name) == None
  {
    if es != [] {
      LookupNone(es[1..], name);
    }
  }

  /** After a merge a name stands for the patterns `rest` has for it, or else for the grammar's own. */
  lemma MergedLookup(g: Grammar, name: string)
    requires g.rest.Some? && DistinctNames(g.rest.value.entries)
    ensures Lookup(Merged(g), name)
            == if Lookup(g.rest.value.entries, name).Some? then Lookup(g.rest.value.entries, name)
               else Lookup(g.entries, name)
  {
    PutAllLookup(g.entries, g.rest.value.entries, name);
  }

  // ----- the order in which patterns are tried

  function EntrySteps(e: Entry): (steps: seq<Step>)
    ensures |steps| == |e.patterns|
  {
    seq(|e.patterns|, d requires 0 <= d < |e.patterns| => Step(e.name, d, e.patterns[d]))
  }

  function Steps(es: seq<Entry>): seq<Step> {
    if es == [] then [] else EntrySteps(es[0]) + Steps(es[1..])
  }

  /** The patterns before an entry. */
  function PatternsBefore(es: seq<Entry>, k: nat): nat
    requires k <= |es|
  {
    if k == 0 then 0 else PatternsBefore(es, k - 1) + |es[k - 1].patterns|
  }

  lemma {:induction false} PatternsBehind(es: seq<Entry>, k: nat)
    requires 0 < k <= |es|
    ensures PatternsBefore(es, k) == |es[0].patterns| + PatternsBefore(es[1..], k - 1)
  {
    if k > 1 {
      PatternsBehind(es, k - 1);
    }
  }

  /** Patterns are tried entry by entry, and in an entry in the order of its array. */
  lemma {:induction false} StepAt(es: seq<Entry>, k: nat, d: nat)
    requires k < |es| && d < |es[k].patterns|
    ensures PatternsBefore(es, k) + d < |Steps(es)|
    ensures Steps(es)[PatternsBefore(es, k) + d] == Step(es[k].name, d, es[k].patterns[d])
    ensures |Steps(es)| == PatternsBefore(es, |es|)
  {
    StepsCounted(es);
    if k > 0 {
      StepAt(es[1..], k - 1, d);
      PatternsBehind(es, k);
    }
  }

  lemma {:induction false} StepsCounted(es: seq<Entry>)
    ensures |Steps(es)| == PatternsBefore(es, |es|)
  {
    if es != [] {
      StepsCounted(es[1..]);
      PatternsBehind(es, |es|);
    }
  }

  function Decimal(n: nat): (s: string)
    ensures s != ""
    ensures ',' !in s
  {
    var digit := ['0' + (n % 10) as char];
    if n < 10 then digit else Decimal(n / 10) + digit
  }

  /** The text by which a rematch names the pattern that caused it. */
  function Label(st: Step): string {
    st.kind + "," + Decimal(st.ordinal)
  }

  /** The first step whose label is that of step `j`: where a rematch caused by `j` stops. */
  function CauseIndex(steps: seq<Step>, j: nat): (c: nat)
    requires j < |steps|
    ensures c <= j && Label(steps[c]) == Label(steps[j])
    ensures forall i | 0 <= i < c :: Label(steps[i]) != Label(steps[j])
  {
    FirstLabelled(steps, Label(steps[j]), 0, j)
  }

  function FirstLabelled(steps: seq<Step>, cause: string, from: nat, j: nat): (c: nat)
    requires from <= j < |steps| && Label(steps[j]) == cause
    requires forall i | 0 <= i < from :: Label(steps[i]) != cause
    ensures from <= c <= j && Label(steps[c]) == cause
    ensures forall i | 0 <= i < c :: Label(steps[i]) != cause
    decreases j - from
  {
    if Label(steps[from]) == cause then from else FirstLabelled(steps, cause, from + 1, j)
  }

  // ----- depth of nesting

  function Max(a: nat, b: nat): nat { if a < b then b else a }

  function Depth(g: Grammar): nat {
    1 + Max(EntriesDepth(g.entries), match g.rest case None => 0 case Some(r) => Depth(r))
  }

  function EntriesDepth(es: seq<Entry>): nat {
    if es == [] then 0 else Max(PatternsDepth(es[0].patterns), EntriesDepth(es[1..]))
  }

  function PatternsDepth(ps: seq<Pattern>): nat {
    if ps == [] then 0
    else Max(match ps[0].inside case None => 0 case Some(g) => Depth(g), PatternsDepth(ps[1..]))
  }

  /** Every grammar inside a step is shallower than `d`. */
  predicate InsideBelow(steps: seq<Step>, d: nat) {
    forall i | 0 <= i < |steps| ::
      steps[i].pattern.inside.Some? ==> Depth(steps[i].pattern.inside.value) < d
  }

  lemma PatternDepthAt(ps: seq<Pattern>, d: nat)
    requires d < |ps|
    ensures ps[d].inside.Some? ==> Depth(ps[d].inside.value) <= PatternsDepth(ps)
  {
    if d > 0 {
      PatternDepthAt(ps[1..], d - 1);
    }
  }

  lemma StepsDepth(es: seq<Entry>)
    ensures InsideBelow(Steps(es), EntriesDepth(es) + 1)
  {
    if es != [] {
      StepsDepth(es[1..]);
      forall d | 0 <= d < |es[0].patterns|
        ensures EntrySteps(es[0])[d].pattern.inside.Some? ==>
                  Depth(EntrySteps(es[0])[d].pattern.inside.value) < EntriesDepth(es) + 1
      {
        PatternDepthAt(es[0].patterns, d);
      }
    }
  }

  lemma PutDepth(es: seq<Entry>, e: Entry)
    ensures EntriesDepth(Put(es, e)) <= Max(EntriesDepth(es), PatternsDepth(e.patterns))
  {
  }

  lemma {:induction false} PutAllDepth(es: seq<Entry>, more: seq<Entry>)
    ensures EntriesDepth(PutAll(es, more)) <= Max(EntriesDepth(es), EntriesDepth(more))
    decreases |more|
  {
    if more != [] {
      PutDepth(es, more[0]);
      PutAllDepth(Put(es, more[0]), more[1..]);
    }
  }

  /** Tokenizing the text of a match with its inside grammar goes one level down. */
  lemma MergedStepsDepth(g: Grammar)
    ensures InsideBelow(Steps(Merged(g)), Depth(g))
  {
    StepsDepth(Merged(g));
    if g.rest.Some? {
      PutAllDepth(g.entries, g.rest.value.entries);
    }
  }

  // ----- the words of a grammar

  /** The name of every pattern with its aliases, at every depth. */
  ghost function Words(g: Grammar): WordLists
    decreases g
  {
    EntriesWords(g.entries) + match g.rest case None => {} case Some(r) => Words(r)
  }

  ghost function EntriesWords(es: seq<Entry>): WordLists
    decreases es
  {
    if es == [] then {} else PatternsWords(es[0].name, es[0].patterns) + EntriesWords(es[1..])
  }

  ghost function PatternsWords(name: string, ps: seq<Pattern>): WordLists
    decreases ps
  {
    if ps == [] then {} else PatternWords(name, ps[0]) + PatternsWords(name, ps[1..])
  }

  ghost function PatternWords(name: string, p: Pattern): WordLists
    decreases p
  {
    {[name] + p.alias} + match p.inside case None => {} case Some(g) => Words(g)
  }

  ghost predicate StepWithin(st: Step, words: WordLists) {
    PatternWords(st.kind, st.pattern) <= words
  }

  ghost predicate StepsWithin(steps: seq<Step>, words: WordLists) {
    forall i {:trigger StepWithin(steps[i], words)} | 0 <= i < |steps| :: StepWithin(steps[i], words)
  }

  lemma PatternWordsAt(name: string, ps: seq<Pattern>, d: nat)
    requires d < |ps|
    ensures PatternWords(name, ps[d]) <= PatternsWords(name, ps)
  {
    if d > 0 {
      PatternWordsAt(name, ps[1..], d - 1);
    }
  }

  lemma {:induction false} StepsWords(es: seq<Entry>, words: WordLists)
    requires EntriesWords(es) <= words
    ensures StepsWithin(Steps(es), words)
  {
    if es != [] {
      StepsWords(es[1..], words);
      forall d | 0 <= d < |es[0].patterns| ensures StepWithin(EntrySteps(es[0])[d], words) {
        PatternWordsAt(es[0].name, es[0].patterns, d);
      }
      var first, rest := EntrySteps(es[0]), Steps(es[1..]);
      forall i | 0 <= i < |Steps(es)| ensures StepWithin(Steps(es)[i], words) {
        if i < |first| {
          assert Steps(es)[i] == first[i];
        } else {
          assert Steps(es)[i] == rest[i - |first|];
        }
      }
    }
  }

  lemma {:induction false} PutWords(es: seq<Entry>, e: Entry, words: WordLists)
    requires EntriesWords(es) <= words && PatternsWords(e.name, e.patterns) <= words
    ensures EntriesWords(Put(es, e)) <= words
  {
    if es == [] {
      assert [e][1..] == [];
    } else if es[0].name == e.name {
      assert Put(es, e)[1..] == es[1..];
    } else {
      PutWords(es[1..], e, words);
      assert Put(es, e)[1..] == Put(es[1..], e);
    }
  }

  lemma {:induction false} PutAllWords(es: seq<Entry>, more: seq<Entry>, words: WordLists)
    requires EntriesWords(es) <= words && EntriesWords(more) <= words
    ensures EntriesWords(PutAll(es, more)) <= words
    decreases |more|
  {
    if more != [] {
      PutWords(es, more[0], words);
      PutAllWords(Put(es, more[0]), more[1..], words);
    }
  }

  lemma MergedStepsWords(g: Grammar)
    ensures StepsWithin(Steps(Merged(g)), Words(g))
  {
    if g.rest.Some? {
      assert EntriesWords(g.rest.value.entries) <= Words(g.rest.value) <= Words(g);
      PutAllWords(g.entries, g.rest.value.entries, Words(g));
    }
    StepsWords(Merged(g), Words(g));
  }

  // ----- labels identify steps

  predicate DistinctNames(es: seq<Entry>) {
    forall i, j | 0 <= i < j < |es| :: es[i].name != es[j].name
  }

  lemma {:induction false} DecimalInjective(m: nat, n: nat)
    requires Decimal(m) == Decimal(n)
    ensures m == n
  {
    var a, b := Decimal(m), Decimal(n);
    assert a[|a| - 1] == b[|b| - 1];
    assert m % 10 == n % 10;
    if m >= 10 && n >= 10 {
      assert a[..|a| - 1] == Decimal(m / 10) && b[..|b| - 1] == Decimal(n / 10);
      DecimalInjective(m / 10, n / 10);
    }
  }

  lemma LastComma(kind: string, digits: string)
    requires ',' !in digits
    ensures var l := kind + "," + digits;
            l[|kind|] == ',' && forall k | |kind| < k < |l| :: l[k] != ','
  {
    var l := kind + "," + digits;
    forall k | |kind| < k < |l| ensures l[k] != ',' {
      assert l[k] == digits[k - |kind| - 1];
    }
  }

  /** Names may hold commas; the ordinal after the last comma cannot. */
  lemma LabelInjective(s: Step, t: Step)
    requires Label(s) == Label(t)
    ensures s.kind == t.kind && s.ordinal == t.ordinal
  {
    var a, b := Decimal(s.ordinal), Decimal(t.ordinal);
    var l := Label(s);
    LastComma(s.kind, a);
    LastComma(t.kind, b);
    assert |s.kind| == |t.kind|;
    assert l[|s.kind| + 1..] == a && l[|t.kind| + 1..] == b;
    assert s.kind == l[..|s.kind|] && t.kind == l[..|t.kind|];
    DecimalInjective(s.ordinal, t.ordinal);
  }

  lemma {:induction false} StepFromEntry(es: seq<Entry>, i: nat)
    requires i < |Steps(es)|
    ensures exists k :: 0 <= k < |es| && es[k].name == Steps(es)[i].kind
  {
    var first := EntrySteps(es[0]);
    if i < |first| {
      assert es[0].name == Steps(es)[i].kind;
    } else {
      StepFromEntry(es[1..], i - |first|);
      var k :| 0 <= k < |es[1..]| && es[1..][k].name == Steps(es[1..])[i - |first|].kind;
      assert es[k + 1].name == Steps(es)[i].kind;
    }
  }

  /** In a grammar whose property names are distinct, as an object's are, no two patterns share
      a label: a rematch stops exactly at the pattern that caused it. */
  lemma {:induction false} DistinctLabels(es: seq<Entry>, i: nat, j: nat)
    requires DistinctNames(es)
    requires i < j < |Steps(es)|
    ensures Label(Steps(es)[i]) != Label(Steps(es)[j])
  {
    var steps, first := Steps(es), EntrySteps(es[0]);
    if Label(steps[i]) == Label(steps[j]) {
      LabelInjective(steps[i], steps[j]);
      if i < |first| && j >= |first| {
        StepFromEntry(es[1..], j - |first|);
      } else if i >= |first| {
        DistinctLabels(es[1..], i - |first|, j - |first|);
      }
    }
  }

  lemma RematchStopsAtCause(es: seq<Entry>, j: nat)
    requires DistinctNames(es)
    requires j < |Steps(es)|
    ensures CauseIndex(Steps(es), j) == j
  {
    var c := CauseIndex(Steps(es), j);
    if c < j {
      DistinctLabels(es, c, j);
    }
  }

  // ----- the regular-expression engine

  // What `exec` reports: where the whole match starts, how long it is, and the length of its
  // first group (0 when the group is absent or empty).
  datatype RawMatch = RawMatch(index: nat, length: nat, group: nat)

  // Which regex, from which position, on which text.
  type Oracle = (nat, nat, string) -> Option<RawMatch>

  /** A match starts no earlier than asked, lies within the text, and its first group is a
      prefix of it. */
  ghost predicate InRange(rx: Oracle) {
    forall r: nat, p: nat, t: string {:trigger rx(r, p, t)} :: p <= |t| && rx(r, p, t).Some? ==>
      var m := rx(r, p, t).value;
      p <= m.index && m.index + m.length <= |t| && m.group <= m.length
  }

  datatype Match = Match(index: nat, length: nat)

  /** Runs a pattern at a position and strips the lookbehind group from the match. */
  function MatchPattern(rx: Oracle, p: Pattern, from: nat, text: string): (r: Option<Match>)
    requires InRange(rx) && from <= |text|
    ensures r.Some? ==> from <= r.value.index && r.value.index + r.value.length <= |text|
    ensures match rx(p.regex, from, text)
            case None => r == None
            case Some(raw) =>
              && r.Some? && r.value.index + r.value.length == raw.index + raw.length
              && r.value.index - raw.index == if p.lookbehind then raw.group else 0
  {
    match rx(p.regex, from, text)
    case None => None
    case Some(m) =>
      if p.lookbehind then Some(Match(m.index + m.group, m.length - m.group))
      else Some(Match(m.index, m.length))
  }

  /** The pattern never matches the empty string. */
  ghost predicate NeverEmpty(rx: Oracle, p: Pattern)
    requires InRange(rx)
  {
    forall from: nat, text: string | from <= |text| && MatchPattern(rx, p, from, text).Some? ::
      MatchPattern(rx, p, from, text).value.length > 0
  }
}
