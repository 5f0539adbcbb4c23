/**
 * The two file-name grammars of a backup remote listing
 * (src/xo-app/backup/restore/index.js, lines 80 and 93):
 *
 *   delta:  ^vm_delta_(.*)_([^\/]+)\/([^_]+)_(.*)$    captures tag, id, date, name
 *   simple: ^([^_]+)_([^_]+)_(.*)\.xva$               captures date, tag, name
 *
 * Both are decided here with string operations.  The predicates
 * `DeltaGrammar` and `SimpleGrammar` say what a decomposition of an entry
 * into captures is; the functions `ParseDelta`, `ParseSimple` and `Parse`
 * compute the decomposition the regular-expression engine picks, and the
 * lemmas tie the two together.  Entries are assumed to hold no line
 * terminator (the regex `.` excludes them).
 */
module Grammar {
  import opened Wrappers
  import opened Lists

  /** The kind of a backup: the `type` field, 'simple' or 'delta'. */
  datatype Kind = Simple | Delta

  /** The captures of one successful match. */
  datatype Match =
    | DeltaMatch(tag: string, id: string, dateToken: string, name: string)
    | SimpleMatch(dateToken: string, tag: string, name: string)

  function KindOf(m: Match): Kind {
    if m.DeltaMatch? then Delta else Simple
  }

  const DeltaPrefix: string := "vm_delta_"
  const XvaSuffix: string := ".xva"

  /** `a`, then the separator `sep`, then `b`. */
  function Join(a: string, sep: char, b: string): string {
    a + [sep] + b
  }

  lemma JoinAt(s: string, p: nat)
    requires p < |s|
    ensures s == Join(s[..p], s[p], s[p + 1..])
  {
    assert s == s[..p] + [s[p]] + s[p + 1..];
  }

  lemma JoinParts(a: string, sep: char, b: string)
    ensures |Join(a, sep, b)| == |a| + 1 + |b|
    ensures Join(a, sep, b)[..|a|] == a
    ensures Join(a, sep, b)[|a|] == sep
    ensures Join(a, sep, b)[|a| + 1..] == b
  {
  }

  /** `m` is a way for the delta regex to match `f` (any tag length). */
  predicate DeltaGrammar(f: string, m: Match) {
    && m.DeltaMatch?
    && f == DeltaPrefix + Join(m.tag, '_', Join(m.id, '/', Join(m.dateToken, '_', m.name)))
    && m.id != [] && '/' !in m.id
    && m.dateToken != [] && '_' !in m.dateToken
  }

  /** `m` is a way for the simple regex to match `f`. */
  predicate SimpleGrammar(f: string, m: Match) {
    && m.SimpleMatch?
    && f == Join(m.dateToken, '_', Join(m.tag, '_', m.name + XvaSuffix))
    && m.dateToken != [] && '_' !in m.dateToken
    && m.tag != [] && '_' !in m.tag
  }

  /** Position of the first `c` in `s` at or after `i`, or |s| when there is none. */
  function IndexFrom(s: string, c: char, i: nat): (k: nat)
    requires i <= |s|
    ensures i <= k <= |s|
    ensures forall j :: i <= j < k ==> s[j] != c
    ensures k < |s| ==> s[k] == c
    decreases |s| - i
  {
    if i == |s| || s[i] == c then i else IndexFrom(s, c, i + 1)
  }

  /** Position of the first `c` in `s`, or |s| when `s` holds none. */
  function IndexOf(s: string, c: char): (k: nat)
    ensures k <= |s|
    ensures c !in s[..k]
    ensures k < |s| ==> s[k] == c
  {
    IndexFrom(s, c, 0)
  }

  lemma IndexOfJoin(a: string, c: char, b: string)
    requires c !in a
    ensures IndexOf(Join(a, c, b), c) == |a|
  {
    JoinParts(a, c, b);
  }

  /** What follows the tag: `<id>/<date>_<name>`. */
  datatype Tail = Tail(id: string, dateToken: string, name: string)

  predicate IsDeltaTail(r: string, t: Tail) {
    && r == Join(t.id, '/', Join(t.dateToken, '_', t.name))
    && t.id != [] && '/' !in t.id
    && t.dateToken != [] && '_' !in t.dateToken
  }

  /**
   * Once the tag is fixed the rest of the delta regex is deterministic:
   * `[^\/]+` runs to the first '/', `[^_]+` to the next '_', and `(.*)$`
   * takes the remainder.
   */
  function DeltaTail(r: string): (t: Option<Tail>)
    ensures t.Some? ==> IsDeltaTail(r, t.value)
  {
    var j := IndexOf(r, '/');
    if j == 0 || j == |r| then None
    else
      var rest := r[j + 1..];
      var k := IndexOf(rest, '_');
      if k == 0 || k == |rest| then None
      else
        JoinAt(r, j);
        JoinAt(rest, k);
        Some(Tail(r[..j], rest[..k], rest[k + 1..]))
  }

  lemma DeltaTailComplete(r: string, t: Tail)
    requires IsDeltaTail(r, t)
    ensures DeltaTail(r) == Some(t)
  {
    var rest := Join(t.dateToken, '_', t.name);
    IndexOfJoin(t.id, '/', rest);
    JoinParts(t.id, '/', rest);
    IndexOfJoin(t.dateToken, '_', t.name);
    JoinParts(t.dateToken, '_', t.name);
  }

  /** The regex, with the tag fixed to s[..p], matches the text after the prefix. */
  predicate TagFits(s: string, p: nat) {
    p < |s| && s[p] == '_' && DeltaTail(s[p + 1..]).Some?
  }

  /** `TagFits` for one text, as a predicate on tag ends. */
  function Fits(s: string): nat -> bool {
    (q: nat) => TagFits(s, q)
  }

  /**
   * The greedy `(.*)` of the delta regex: the engine tries the longest tag
   * first and backs off one character at a time, so the tag ends at the
   * last position where the rest still matches.
   */
  function LongestTag(s: string): Option<nat> {
    LastWhere(Fits(s), |s|)
  }

  /** The tag end chosen fits, and no later position does. */
  lemma LongestTagFits(s: string)
    ensures LongestTag(s).Some? ==> TagFits(s, LongestTag(s).value)
    ensures forall q: nat | TagFits(s, q) :: LongestTag(s).Some? && q <= LongestTag(s).value
  {
    var fits := Fits(s);
    var p := LastWhere(fits, |s|);
    forall q: nat | TagFits(s, q)
      ensures p.Some? && q <= p.value
    {
      assert fits(q);
    }
  }

  lemma PrefixSplit(f: string)
    requires |f| >= |DeltaPrefix| && f[..|DeltaPrefix|] == DeltaPrefix
    ensures f == DeltaPrefix + f[|DeltaPrefix|..]
  {
  }

  lemma PrefixParts(s: string)
    ensures (DeltaPrefix + s)[..|DeltaPrefix|] == DeltaPrefix
    ensures (DeltaPrefix + s)[|DeltaPrefix|..] == s
  {
  }

  /** The delta regex (index.js:80), with the captures it yields. */
  function ParseDelta(f: string): (m: Option<Match>)
    ensures m.Some? ==> DeltaGrammar(f, m.value)
  {
    if |f| < |DeltaPrefix| || f[..|DeltaPrefix|] != DeltaPrefix then None
    else
      var s := f[|DeltaPrefix|..];
      match LongestTag(s)
      case None => None
      case Some(p) =>
        LongestTagFits(s);
        var t := DeltaTail(s[p + 1..]).value;
        TagFitsGrammar(s, p);
        PrefixSplit(f);
        Some(DeltaMatch(s[..p], t.id, t.dateToken, t.name))
  }

  /** A fitting tag end gives a delta decomposition of the whole entry. */
  lemma TagFitsGrammar(s: string, p: nat)
    requires TagFits(s, p)
    ensures var t := DeltaTail(s[p + 1..]).value;
            DeltaGrammar(DeltaPrefix + s, DeltaMatch(s[..p], t.id, t.dateToken, t.name))
  {
    JoinAt(s, p);
  }

  /** A decomposition of `f` by the delta grammar puts a fitting tag end at |tag|. */
  lemma DeltaGrammarFits(f: string, m: Match)
    requires DeltaGrammar(f, m)
    ensures |f| >= |DeltaPrefix| && f[..|DeltaPrefix|] == DeltaPrefix
    ensures TagFits(f[|DeltaPrefix|..], |m.tag|)
    ensures f[|DeltaPrefix|..][..|m.tag|] == m.tag
    ensures DeltaTail(f[|DeltaPrefix|..][|m.tag| + 1..]) == Some(Tail(m.id, m.dateToken, m.name))
  {
    var r := Join(m.id, '/', Join(m.dateToken, '_', m.name));
    var s := Join(m.tag, '_', r);
    PrefixParts(s);
    JoinParts(m.tag, '_', r);
    DeltaTailComplete(r, Tail(m.id, m.dateToken, m.name));
  }

  /**
   * The regex semantics of the delta grammar: it matches whenever some
   * decomposition exists, and then it picks one with the longest tag.
   */
  lemma DeltaLongest(f: string, m: Match)
    requires DeltaGrammar(f, m)
    ensures ParseDelta(f).Some?
    ensures |m.tag| <= |ParseDelta(f).value.tag|
  {
    DeltaGrammarFits(f, m);
    LongestTagFits(f[|DeltaPrefix|..]);
  }

  /** With the tag length fixed, a delta decomposition is unique. */
  lemma DeltaUnique(f: string, m1: Match, m2: Match)
    requires DeltaGrammar(f, m1) && DeltaGrammar(f, m2)
    requires |m1.tag| == |m2.tag|
    ensures m1 == m2
  {
    DeltaGrammarFits(f, m1);
    DeltaGrammarFits(f, m2);
  }

  /** The delta regex fails exactly when `f` has no delta decomposition at all. */
  lemma DeltaNoneIff(f: string)
    ensures ParseDelta(f).None? <==> forall m :: !DeltaGrammar(f, m)
  {
    if m :| DeltaGrammar(f, m) {
      DeltaLongest(f, m);
    }
  }

  /** The simple regex (index.js:93), with the captures it yields. */
  function ParseSimple(f: string): (m: Option<Match>)
    ensures m.Some? ==> SimpleGrammar(f, m.value)
  {
    var i := IndexOf(f, '_');
    if i == 0 || i == |f| then None
    else
      var rest := f[i + 1..];
      var j := IndexOf(rest, '_');
      if j == 0 || j == |rest| then None
      else
        var tail := rest[j + 1..];
        var n := |tail| - |XvaSuffix|;
        if n < 0 || tail[n..] != XvaSuffix then None
        else
          JoinAt(f, i);
          JoinAt(rest, j);
          assert tail == tail[..n] + XvaSuffix;
          Some(SimpleMatch(f[..i], rest[..j], tail[..n]))
  }

  lemma SimpleComplete(f: string, m: Match)
    requires SimpleGrammar(f, m)
    ensures ParseSimple(f) == Some(m)
  {
    var tail := m.name + XvaSuffix;
    var rest := Join(m.tag, '_', tail);
    IndexOfJoin(m.dateToken, '_', rest);
    JoinParts(m.dateToken, '_', rest);
    IndexOfJoin(m.tag, '_', tail);
    JoinParts(m.tag, '_', tail);
    assert tail[|m.name|..] == XvaSuffix;
    assert tail[..|m.name|] == m.name;
  }

  /**
   * One parse for both call sites (index.js:80-105 and 233-258): the delta
   * grammar first, the simple grammar only when it fails.
   */
  function Parse(f: string): (m: Option<Match>)
    ensures m.Some? && m.value.DeltaMatch? ==> DeltaGrammar(f, m.value)
    ensures m.Some? && m.value.SimpleMatch? ==> SimpleGrammar(f, m.value)
  {
    if ParseDelta(f).Some? then ParseDelta(f) else ParseSimple(f)
  }

  /** An entry with a delta decomposition parses as the delta match with the longest tag. */
  lemma ParseDeltaEntry(f: string, m: Match)
    requires DeltaGrammar(f, m)
    requires forall m' :: DeltaGrammar(f, m') ==> |m'.tag| <= |m.tag|
    ensures Parse(f) == Some(m)
  {
    DeltaLongest(f, m);
    DeltaUnique(f, m, ParseDelta(f).value);
  }

  /** The simple grammar is used only when the delta grammar fails. */
  lemma ParseSimpleEntry(f: string, m: Match)
    requires forall m' :: !DeltaGrammar(f, m')
    requires SimpleGrammar(f, m)
    ensures Parse(f) == Some(m)
  {
    DeltaNoneIff(f);
    SimpleComplete(f, m);
  }

  /** An entry matching neither grammar yields nothing, and only such entries do. */
  lemma ParseNoneIff(f: string)
    ensures Parse(f).None? <==> forall m :: !DeltaGrammar(f, m) && !SimpleGrammar(f, m)
  {
    DeltaNoneIff(f);
    if m :| SimpleGrammar(f, m) {
      SimpleComplete(f, m);
    }
  }
}
