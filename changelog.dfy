/**
  The changelog half of the maintenance tooling: from a pull request's metadata
  and a structured reply of the text generator (or its fallback), add one bullet
  to the `## [Unreleased]` part of a Keep a Changelog 1.1.0 document, at most once
  per pull request.

  The network calls (the code host, the generator) are outside the model: the
  pull request's fields and the generator's reply are parameters, and the final
  document text is the result instead of a file write.
 */
module Changelog {
  import opened Text
  import opened FileSummary

  // ---------------------------------------------------------------------------
  // Scope guess: the most frequent top-level directory among the changed files
  // ---------------------------------------------------------------------------

  /** `p.split("/")[0]`: everything before the first '/', or all of `p`. */
  function TopSegment(p: string): (r: string)
    ensures |r| <= |p| && r == p[..|r|] && '/' !in r
    ensures '/' in p ==> |r| < |p| && p[|r|] == '/'
  {
    if p == [] || p[0] == '/' then [] else [p[0]] + TopSegment(p[1..])
  }

  /** `[p.split("/")[0] for p in changed if "/" in p]` */
  function TopDirs(changed: seq<string>): (dirs: seq<string>)
    ensures |dirs| <= |changed|
    ensures forall d :: d in dirs <==> exists p :: p in changed && '/' in p && d == TopSegment(p)
  {
    if changed == [] then []
    else (if '/' in changed[0] then [TopSegment(changed[0])] else []) + TopDirs(changed[1..])
  }

  /**
    What `max(set(top_dirs), key=top_dirs.count) if top_dirs else ""` may return:
    the empty string when no path has a '/', otherwise one of the top-level
    directories with the largest count (which one among equals depends on the
    iteration order of a Python set and is not fixed here).
   */
  ghost predicate IsScopeGuess(changed: seq<string>, s: string) {
    var dirs := TopDirs(changed);
    if dirs == [] then s == ""
    else s in dirs && forall d :: d in dirs ==> multiset(dirs)[d] <= multiset(dirs)[s]
  }

  method ScopeGuess(changed: seq<string>) returns (scope: string)
    ensures IsScopeGuess(changed, scope)
    ensures TopDirs(changed) == [] ==> scope == ""
    ensures TopDirs(changed) != [] ==> scope in TopDirs(changed)
  {
    var topDirs := TopDirs(changed);
    if topDirs == [] {
      return "";
    }
    var candidates := set d | d in topDirs;
    assert topDirs[0] in candidates;
    scope := MostFrequent(multiset(topDirs), candidates);
  }

  /** `max(candidates, key=count)`: walk the set and keep an element of largest count. */
  method MostFrequent(count: multiset<string>, candidates: set<string>) returns (best: string)
    requires candidates != {}
    ensures best in candidates
    ensures forall d :: d in candidates ==> count[d] <= count[best]
  {
    best :| best in candidates;
    var pending := candidates - {best};
    while pending != {}
      invariant best in candidates && pending <= candidates
      invariant forall d :: d in candidates && d !in pending ==> count[d] <= count[best]
      decreases |pending|
    {
      var d :| d in pending;
      if count[d] > count[best] {
        best := d;
      }
      pending := pending - {d};
    }
  }

  /**
    When no changed path starts with '/', the scope guess is empty exactly when
    no changed path contains a '/'.
   */
  lemma ScopeGuessEmptyIff(changed: seq<string>, s: string)
    requires IsScopeGuess(changed, s)
    requires forall p :: p in changed ==> p == [] || p[0] != '/'
    ensures s == "" <==> forall p :: p in changed ==> '/' !in p
  {
    var dirs := TopDirs(changed);
    if exists p :: p in changed && '/' in p {
      var p :| p in changed && '/' in p;
      assert TopSegment(p) in dirs;
      assert s in dirs;
      var q :| q in changed && '/' in q && s == TopSegment(q);
      assert q != [] && q[0] != '/';
      assert TopSegment(q) == [q[0]] + TopSegment(q[1..]);
    }
  }

  /** A path with a leading '/' contributes an empty top-level directory. */
  lemma LeadingSlashGivesEmptyScope()
    ensures IsScopeGuess(["/docs"], "")
  {
    assert TopSegment("/docs") == "";
    assert TopDirs(["/docs"]) == [""] + TopDirs([]);
  }

  // ---------------------------------------------------------------------------
  // The generator's reply and its fallback
  // ---------------------------------------------------------------------------

  /**
    The decoded reply object. Each key may be missing (`None`); the script reads
    them with `dict.get` and its defaults.
   */
  datatype Parsed = Parsed(
    category: Option<string>,
    summary: Option<string>,
    scope: Option<string>,
    breaking: Option<bool>,
    migration: Option<string>,
    references: Option<seq<string>>)

  function GetOr<T>(o: Option<T>, default: T): T {
    if o.Some? then o.value else default
  }

  /** Python truthiness of an optional string: present and not empty. */
  predicate Truthy(o: Option<string>) {
    o.Some? && o.value != ""
  }

  /** `s[:n]` */
  function Take(s: string, n: nat): (r: string)
    ensures |r| == if |s| <= n then |s| else n
    ensures r == s[..|r|]
  {
    if |s| <= n then s else s[..n]
  }

  /**
    The entry taken when the generator call raises (no reply, `None`); otherwise
    the decoded reply as it is.
   */
  function Resolve(reply: Option<Parsed>, title: string, scopeGuess: string): (p: Parsed)
    ensures reply.Some? ==> p == reply.value
    ensures reply.None? ==> p.category == Some("Changed") && p.breaking == Some(false)
    ensures reply.None? ==> p.scope == Some(scopeGuess) && p.migration == Some("") && p.references == Some([])
    ensures reply.None? ==> p.summary.Some? && |p.summary.value| == if |Strip(title)| <= 200 then |Strip(title)| else 200
    ensures reply.None? ==> p.summary.value == Strip(title)[..|p.summary.value|]
    ensures reply.None? && |Strip(title)| <= 200 ==> p.summary.value == Strip(title)
  {
    if reply.Some? then reply.value
    else Parsed(Some("Changed"), Some(Take(Strip(title), 200)), Some(scopeGuess), Some(false), Some(""), Some([]))
  }

  // ---------------------------------------------------------------------------
  // Reference normalisation: set union, then sorted()
  // ---------------------------------------------------------------------------

  function Elems(s: seq<string>): set<string> {
    set x | x in s
  }

  lemma ElemsEmpty(s: seq<string>)
    ensures Elems(s) == {} <==> s == []
  {
    if s != [] {
      assert s[0] in Elems(s);
    }
  }

  ghost predicate StrictlySorted(s: seq<string>) {
    forall i, j :: 0 <= i < j < |s| ==> Less(s[i], s[j])
  }

  /** Put `x` into its place in a strictly sorted list, unless it is already there. */
  function InsertSorted(xs: seq<string>, x: string): (r: seq<string>)
    requires StrictlySorted(xs)
    ensures StrictlySorted(r) && Elems(r) == Elems(xs) + {x}
  {
    if xs == [] then [x]
    else if x == xs[0] then xs
    else if Less(x, xs[0]) then
      assert forall j :: 0 <= j < |xs| ==> Less(x, xs[j]) by {
        forall j | 0 < j < |xs| ensures Less(x, xs[j]) {
          LessTransitive(x, xs[0], xs[j]);
        }
      }
      [x] + xs
    else
      LessTotal(x, xs[0]);
      var rest := InsertSorted(xs[1..], x);
      assert Elems(xs) == {xs[0]} + Elems(xs[1..]);
      assert forall j :: 0 <= j < |rest| ==> Less(xs[0], rest[j]) by {
        forall j | 0 <= j < |rest| ensures Less(xs[0], rest[j]) {
          assert rest[j] in Elems(rest);
          assert rest[j] in Elems(xs[1..]) + {x};
        }
      }
      var r := [xs[0]] + rest;
      assert Elems(r) == {xs[0]} + Elems(rest);
      assert StrictlySorted(r) by {
        forall i, j | 0 <= i < j < |r| ensures Less(r[i], r[j]) {
          if i > 0 {
            assert r[i] == rest[i - 1] && r[j] == rest[j - 1];
          }
        }
      }
      r
  }

  /** The sorted, duplicate-free list of the strings in `xs`. */
  function SortDedup(xs: seq<string>): (r: seq<string>)
    ensures StrictlySorted(r) && Elems(r) == Elems(xs)
  {
    if xs == [] then []
    else
      assert Elems(xs) == Elems(xs[..|xs| - 1]) + {xs[|xs| - 1]} by {
        assert xs == xs[..|xs| - 1] + [xs[|xs| - 1]];
      }
      InsertSorted(SortDedup(xs[..|xs| - 1]), xs[|xs| - 1])
  }

  /** A strictly sorted list is determined by its elements. */
  lemma {:induction false} SortedUnique(a: seq<string>, b: seq<string>)
    requires StrictlySorted(a) && StrictlySorted(b) && Elems(a) == Elems(b)
    ensures a == b
    decreases |a|
  {
    if a == [] {
      ElemsEmpty(b);
    } else {
      assert a[0] in Elems(b);
      assert b != [];
      assert b[0] in Elems(a);
      if a[0] != b[0] {
        var k :| 0 <= k < |b| && b[k] == a[0];
        var m :| 0 <= m < |a| && a[m] == b[0];
        assert Less(b[0], a[0]);
        assert Less(a[0], b[0]);
        LessAsymmetric(a[0], b[0]);
      }
      forall i | 0 < i < |a| ensures a[i] != a[0] {
        LessIrreflexive(a[0]);
      }
      forall i | 0 < i < |b| ensures b[i] != b[0] {
        LessIrreflexive(b[0]);
      }
      assert Elems(a) == {a[0]} + Elems(a[1..]);
      assert Elems(b) == {b[0]} + Elems(b[1..]);
      assert Elems(a[1..]) == Elems(b[1..]);
      SortedUnique(a[1..], b[1..]);
      assert a == [a[0]] + a[1..] && b == [b[0]] + b[1..];
    }
  }

  /** `#<PR>`, the token by which a pull request is referenced. */
  function PrRef(pr: nat): string {
    "#" + NatToString(pr)
  }

  /** `sorted(set(model_refs) | {f"#{PR}", f"@{author}"})` */
  function NormalRefs(model: seq<string>, pr: nat, author: string): seq<string> {
    SortDedup(model + [PrRef(pr), "@" + author])
  }

  /**
    `refs = set(...)`, `refs.update({...})`, `sorted(refs)`: the result is strictly
    increasing (so free of duplicates) and holds the model's references, the
    pull request's and the author's, and nothing else.
   */
  method NormalizeReferences(model: seq<string>, pr: nat, author: string) returns (refs: seq<string>)
    ensures StrictlySorted(refs)
    ensures Elems(refs) == Elems(model) + {PrRef(pr), "@" + author}
    ensures refs == NormalRefs(model, pr, author)
  {
    var all := Elems(model);
    all := all + {PrRef(pr), "@" + author};
    // sorted(): take the elements one at a time into a sorted list
    refs := [];
    var pending := all;
    while pending != {}
      invariant StrictlySorted(refs)
      invariant Elems(refs) + pending == all
      decreases |pending|
    {
      var r :| r in pending;
      refs := InsertSorted(refs, r);
      pending := pending - {r};
    }
    assert Elems(model + [PrRef(pr), "@" + author]) == all;
    SortedUnique(refs, NormalRefs(model, pr, author));
  }

  // ---------------------------------------------------------------------------
  // Idempotency guard: `#<PR>` not followed by a word character
  // ---------------------------------------------------------------------------

  /** A word character of the regex `\b`, restricted to ASCII. */
  predicate IsWordChar(c: char) {
    ('a' <= c <= 'z') || ('A' <= c <= 'Z') || ('0' <= c <= '9') || c == '_'
  }

  /** `tok` starts at `i` and is followed by a non-word character or the end. */
  ghost predicate RefAt(t: string, tok: string, i: int) {
    OccursAt(t, tok, i) && (i + |tok| == |t| || !IsWordChar(t[i + |tok|]))
  }

  /** `re.search(rf"{tok}\b", t) is not None` for a token ending in a word character. */
  function HasRef(t: string, tok: string): bool
    decreases |t|
  {
    if |tok| > |t| then false
    else if t[..|tok|] == tok && (|t| == |tok| || !IsWordChar(t[|tok|])) then true
    else |t| > 0 && HasRef(t[1..], tok)
  }

  lemma {:induction false} HasRefIff(t: string, tok: string)
    ensures HasRef(t, tok) <==> exists i :: RefAt(t, tok, i)
    decreases |t|
  {
    if |tok| > |t| {
    } else if t[..|tok|] == tok && (|t| == |tok| || !IsWordChar(t[|tok|])) {
      assert RefAt(t, tok, 0);
    } else {
      assert |t| > 0;
      HasRefIff(t[1..], tok);
      if HasRef(t[1..], tok) {
        var i :| RefAt(t[1..], tok, i);
        assert t[i + 1..i + 1 + |tok|] == t[1..][i..i + |tok|];
        assert RefAt(t, tok, i + 1);
      } else {
        forall i | RefAt(t, tok, i) ensures false {
          assert i != 0;
          assert t[1..][i - 1..i - 1 + |tok|] == t[i..i + |tok|];
          assert RefAt(t[1..], tok, i - 1);
        }
      }
    }
  }

  /** A whole-token reference inside an embedded piece of text is one in the whole text. */
  lemma RefWithin(t: string, piece: string, j: int, tok: string, k: int)
    requires OccursAt(t, piece, j) && RefAt(piece, tok, k) && k + |tok| < |piece|
    ensures HasRef(t, tok)
  {
    assert piece[k + |tok|] == t[j..j + |piece|][k + |tok|] == t[j + k + |tok|];
    forall m | 0 <= m < |tok| ensures t[j + k + m] == tok[m] {
      assert t[j + k + m] == t[j..j + |piece|][k + m] == piece[k + m];
      assert piece[k + m] == piece[k..k + |tok|][m];
    }
    assert t[j + k..j + k + |tok|] == tok;
    assert RefAt(t, tok, j + k);
    HasRefIff(t, tok);
  }

  // ---------------------------------------------------------------------------
  // ensure_section
  // ---------------------------------------------------------------------------

  const UnreleasedTitle := "## [Unreleased]"
  const UnreleasedLine := "## [Unreleased]\n"

  function SectionMarker(header: string): string {
    "\n### " + header + "\n"
  }

  /** `f"## [Unreleased]\n\n### {header}\n\n"` */
  function SectionOpening(header: string): string {
    UnreleasedLine + SectionMarker(header) + "\n"
  }

  lemma OpeningContains(header: string)
    ensures Contains(SectionOpening(header), UnreleasedLine)
    ensures Contains(SectionOpening(header), SectionMarker(header))
  {
    var o := SectionOpening(header);
    assert OccursAt(o, UnreleasedLine, 0);
    assert o[|UnreleasedLine|..|UnreleasedLine| + |SectionMarker(header)|] == SectionMarker(header);
    assert OccursAt(o, SectionMarker(header), |UnreleasedLine|);
    OccursAtContains(o, UnreleasedLine, 0);
    OccursAtContains(o, SectionMarker(header), |UnreleasedLine|);
  }

  /**
    `ensure_section`: a text that already has the `\n### <header>\n` marker (anywhere)
    is returned as it is; otherwise every `## [Unreleased]\n` is followed by a new
    empty `### <header>` subsection.
   */
  function EnsureSection(txt: string, header: string): (r: string)
    ensures Contains(txt, SectionMarker(header)) ==> r == txt
    ensures !Contains(txt, SectionMarker(header)) ==> r == ReplaceAll(txt, UnreleasedLine, SectionOpening(header))
    ensures !Contains(txt, UnreleasedLine) ==> r == txt
    ensures Contains(txt, UnreleasedLine) ==> Contains(r, UnreleasedLine) && Contains(r, SectionMarker(header))
  {
    if Contains(txt, SectionMarker(header)) then txt
    else
      var r := ReplaceAll(txt, UnreleasedLine, SectionOpening(header));
      assert Contains(txt, UnreleasedLine) ==> Contains(r, UnreleasedLine) && Contains(r, SectionMarker(header)) by {
        if Contains(txt, UnreleasedLine) {
          ReplaceAllPresent(txt, UnreleasedLine, SectionOpening(header));
          OpeningContains(header);
          ContainsTrans(r, SectionOpening(header), UnreleasedLine);
          ContainsTrans(r, SectionOpening(header), SectionMarker(header));
        }
      }
      assert !Contains(txt, UnreleasedLine) ==> r == txt by {
        if !Contains(txt, UnreleasedLine) {
          ReplaceAllAbsent(txt, UnreleasedLine, SectionOpening(header));
        }
      }
      r
  }

  /** Ensuring a section twice is the same as ensuring it once. */
  lemma EnsureSectionIdempotent(txt: string, header: string)
    ensures EnsureSection(EnsureSection(txt, header), header) == EnsureSection(txt, header)
  {
  }

  // ---------------------------------------------------------------------------
  // The bullet and its migration line
  // ---------------------------------------------------------------------------

  const BreakingTag := "\U{26A0}\U{FE0F} BREAKING"

  /** `bullet_parts` before the empty ones are dropped. */
  function BulletParts(p: Parsed): seq<string> {
    (if Truthy(p.scope) then ["[" + p.scope.value + "]"] else [])
    + (if p.breaking == Some(true) then [BreakingTag] else [])
    + [GetOr(p.summary, "")]
  }

  function NonEmpty(parts: seq<string>): (r: seq<string>)
    ensures forall x :: x in r <==> x in parts && x != ""
  {
    if parts == [] then []
    else (if parts[0] != "" then [parts[0]] else []) + NonEmpty(parts[1..])
  }

  function MigrationLine(m: string): string {
    "   - **Migration:** " + m + "\n"
  }

  /** The text inserted for one pull request: the bullet line, then maybe the migration line. */
  function Insertion(p: Parsed, refs: seq<string>): string {
    " - " + Join(NonEmpty(BulletParts(p)), " ") + " (" + Join(refs, ", ") + ")" + "\n"
    + (if p.breaking == Some(true) && Truthy(p.migration) then MigrationLine(p.migration.value) else "")
  }

  /** `x` starts at `i` in `s` and is followed by `,` or `)`. */
  ghost predicate ListedAt(s: string, x: string, i: int) {
    0 <= i && i + |x| < |s| && s[i..i + |x|] == x && (s[i + |x|] == ',' || s[i + |x|] == ')')
  }

  /** Every element of a `", "`-joined list closed by `)` is followed by `,` or `)`. */
  lemma {:induction false} JoinedRefAt(xs: seq<string>, x: string)
    requires x in xs
    ensures exists i :: ListedAt(Join(xs, ", ") + ")", x, i)
  {
    var s := Join(xs, ", ") + ")";
    if xs[0] == x {
      if |xs| == 1 {
        assert s == x + ")";
        assert s[0..|x|] == x;
        assert ListedAt(s, x, 0);
      } else {
        assert s == x + (", " + Join(xs[1..], ", ") + ")");
        assert s[0..|x|] == x;
        assert ListedAt(s, x, 0);
      }
    } else {
      assert x in xs[1..];
      JoinedRefAt(xs[1..], x);
      var t := Join(xs[1..], ", ") + ")";
      var i :| ListedAt(t, x, i);
      var off := |xs[0]| + 2;
      assert s == xs[0] + ", " + t;
      assert s[off + i..off + i + |x|] == t[i..i + |x|];
      assert s[off + i + |x|] == t[i + |x|];
      assert ListedAt(s, x, off + i);
    }
  }

  /** A listed reference stays a whole token once the list is framed by other text. */
  lemma ListedRef(head: string, d: string, r1: string, r2: string, x: string, i: int)
    requires ListedAt(d + ")", x, i)
    ensures RefAt(head + d + ")" + r1 + r2, x, |head| + i) && |head| + i + |x| < |head + d + ")" + r1 + r2|
  {
    var s := d + ")";
    var ins := head + d + ")" + r1 + r2;
    assert ins[|head| + i + |x|] == s[i + |x|];
    forall m | 0 <= m < |x| ensures ins[|head| + i + m] == x[m] {
      assert s[i + m] == s[i..i + |x|][m];
    }
    assert ins[|head| + i..|head| + i + |x|] == x;
  }

  /** Each reference appears in the insertion as a whole token, `#<PR>` among them. */
  lemma InsertionRecordsRefs(p: Parsed, refs: seq<string>, x: string)
    requires x in refs
    ensures exists k :: RefAt(Insertion(p, refs), x, k) && k + |x| < |Insertion(p, refs)|
  {
    JoinedRefAt(refs, x);
    var i :| ListedAt(Join(refs, ", ") + ")", x, i);
    var head := " - " + Join(NonEmpty(BulletParts(p)), " ") + " (";
    var m := if p.breaking == Some(true) && Truthy(p.migration) then MigrationLine(p.migration.value) else "";
    ListedRef(head, Join(refs, ", "), "\n", m, x, i);
    assert Insertion(p, refs) == head + Join(refs, ", ") + ")" + "\n" + m;
  }

  // ---------------------------------------------------------------------------
  // The splice: `## \[Unreleased\][\s\S]*?### <category>\n`
  // ---------------------------------------------------------------------------

  function Heading(category: string): string {
    "### " + category + "\n"
  }

  /** The pattern matches from `s` with its lazy part ending where `### <category>\n` starts at `k`. */
  ghost predicate MatchesAt(t: string, category: string, s: int, k: int) {
    OccursAt(t, UnreleasedTitle, s) && s + |UnreleasedTitle| <= k && OccursAt(t, Heading(category), k)
  }

  /** `re.search` picks the leftmost start and, the quantifier being lazy, the nearest heading. */
  ghost predicate IsLeftmostLazy(t: string, category: string, s: int, k: int) {
    MatchesAt(t, category, s, k)
    && forall s2, k2 :: MatchesAt(t, category, s2, k2) ==> s < s2 || (s == s2 && k <= k2)
  }

  /** `m.end()` of the search, or `None` when it finds nothing. */
  function MatchEnd(t: string, category: string): (m: Option<nat>)
    ensures m.Some? ==> exists s, k :: IsLeftmostLazy(t, category, s, k) && m.value == k + |Heading(category)|
    ensures m.None? ==> forall s, k :: !MatchesAt(t, category, s, k)
  {
    match FindFrom(t, UnreleasedTitle, 0)
    case None => None
    case Some(s) =>
      match FindFrom(t, Heading(category), s + |UnreleasedTitle|)
      case None => None
      case Some(k) =>
        assert IsLeftmostLazy(t, category, s, k);
        Some(k + |Heading(category)|)
  }

  /** The replacement used when the search finds nothing. */
  function FallbackOpening(category: string, insertion: string): string {
    UnreleasedLine + "\n" + Heading(category) + insertion + "\n"
  }

  /**
    Insert right after the heading the search found, keeping everything before
    and after it as it was; without a match, fall back to `str.replace` on every
    `## [Unreleased]\n`.
   */
  function Splice(t: string, category: string, insertion: string): (r: string)
    ensures MatchEnd(t, category).Some? ==>
      var e := MatchEnd(t, category).value;
      && e <= |t| && |r| == |t| + |insertion|
      && t[e - |Heading(category)|..e] == Heading(category)
      && r[..e] == t[..e] && r[e..e + |insertion|] == insertion && r[e + |insertion|..] == t[e..]
    ensures MatchEnd(t, category).None? ==> r == ReplaceAll(t, UnreleasedLine, FallbackOpening(category, insertion))
    ensures !Contains(t, UnreleasedTitle) ==> r == t
    ensures Contains(t, UnreleasedLine) ==> Contains(r, insertion)
    ensures r == t || Contains(r, insertion)
  {
    match MatchEnd(t, category)
    case Some(e) =>
      var r := t[..e] + insertion + t[e..];
      assert OccursAt(r, insertion, e);
      OccursAtContains(r, insertion, e);
      assert Contains(t, UnreleasedTitle) by {
        var s, k :| IsLeftmostLazy(t, category, s, k) && e == k + |Heading(category)|;
        OccursAtContains(t, UnreleasedTitle, s);
      }
      r
    case None =>
      var opening := FallbackOpening(category, insertion);
      var r := ReplaceAll(t, UnreleasedLine, opening);
      assert Contains(opening, insertion) by {
        var pre := UnreleasedLine + "\n" + Heading(category);
        assert opening == pre + insertion + "\n";
        assert OccursAt(opening, insertion, |pre|);
        OccursAtContains(opening, insertion, |pre|);
      }
      assert Contains(t, UnreleasedLine) ==> Contains(r, insertion) by {
        if Contains(t, UnreleasedLine) {
          ReplaceAllPresent(t, UnreleasedLine, opening);
          ContainsTrans(r, opening, insertion);
        }
      }
      assert !Contains(t, UnreleasedLine) ==> r == t by {
        if !Contains(t, UnreleasedLine) {
          ReplaceAllAbsent(t, UnreleasedLine, opening);
        }
      }
      assert !Contains(t, UnreleasedTitle) ==> !Contains(t, UnreleasedLine) by {
        if Contains(t, UnreleasedLine) {
          assert OccursAt(UnreleasedLine, UnreleasedTitle, 0);
          OccursAtContains(UnreleasedLine, UnreleasedTitle, 0);
          ContainsTrans(t, UnreleasedLine, UnreleasedTitle);
        }
      }
      r
  }

  // ---------------------------------------------------------------------------
  // The whole update of CHANGELOG.md
  // ---------------------------------------------------------------------------

  /*
    The skeleton written when CHANGELOG.md is missing. The lines before the
    `## [Unreleased]` heading are held in short literal pieces, so that facts
    about their characters can be shown piece by piece.
   */
  const TitleLine := "# Changelog\n\n"
  const IntroLine := "All notable changes " + "to this project will " + "be documented in " + "this file.\n\n"
  const FormatLine :=
    ("The format is based " + "on [Keep a Changelog]" + "(https://keepa" + "changelog.com/en/" + "1.1.0/), ")
    + ("and this project " + "adheres to [Semantic " + "Versioning](https://" + "semver.org/spec/" + "v2.0.0.html).\n\n")
  const SkeletonPreamble := TitleLine + IntroLine + FormatLine
  const FreshUnreleased := UnreleasedLine + "\n"
  const Skeleton := SkeletonPreamble + FreshUnreleased

  // ---------------------------------------------------------------------------
  // A missing CHANGELOG.md: the skeleton and the first bullet
  // ---------------------------------------------------------------------------

  /** Every '#' of `s` is followed by a space, so `s` holds no `##` and no `#<digit>`. */
  ghost predicate HashesSpaced(s: string) {
    forall j :: 0 <= j < |s| && s[j] == '#' ==> j + 1 < |s| && s[j + 1] == ' '
  }

  ghost predicate HashFree(s: string) {
    forall j :: 0 <= j < |s| ==> s[j] != '#'
  }

  lemma FreeConcat(a: string, b: string)
    requires HashFree(a) && HashFree(b)
    ensures HashFree(a + b)
  {
    forall j | 0 <= j < |a + b| ensures (a + b)[j] != '#' {
      if j >= |a| {
        assert (a + b)[j] == b[j - |a|];
      }
    }
  }

  lemma SpacedConcat(a: string, b: string)
    requires HashesSpaced(a) && HashesSpaced(b)
    ensures HashesSpaced(a + b)
  {
    forall j | 0 <= j < |a + b| && (a + b)[j] == '#' ensures j + 1 < |a + b| && (a + b)[j + 1] == ' ' {
      if j >= |a| {
        assert b[j - |a|] == '#';
      }
    }
  }

  lemma IntroLineFree()
    ensures HashFree(IntroLine)
  {
    assert HashFree("All notable changes ");
    assert HashFree("to this project will ");
    FreeConcat("All notable changes ", "to this project will ");
    assert HashFree("be documented in ");
    FreeConcat("All notable changes " + "to this project will ", "be documented in ");
    assert HashFree("this file.\n\n");
    FreeConcat("All notable changes " + "to this project will " + "be documented in ", "this file.\n\n");
  }

  lemma FormatStartFree()
    ensures HashFree("The format is based " + "on [Keep a Changelog]" + "(https://keepa" + "changelog.com/en/" + "1.1.0/), ")
  {
    assert HashFree("The format is based ");
    assert HashFree("on [Keep a Changelog]");
    FreeConcat("The format is based ", "on [Keep a Changelog]");
    assert HashFree("(https://keepa");
    FreeConcat("The format is based " + "on [Keep a Changelog]", "(https://keepa");
    assert HashFree("changelog.com/en/");
    FreeConcat("The format is based " + "on [Keep a Changelog]" + "(https://keepa", "changelog.com/en/");
    assert HashFree("1.1.0/), ");
    FreeConcat("The format is based " + "on [Keep a Changelog]" + "(https://keepa" + "changelog.com/en/", "1.1.0/), ");
  }

  lemma FormatEndFree()
    ensures HashFree("and this project " + "adheres to [Semantic " + "Versioning](https://" + "semver.org/spec/" + "v2.0.0.html).\n\n")
  {
    assert HashFree("and this project ");
    assert HashFree("adheres to [Semantic ");
    FreeConcat("and this project ", "adheres to [Semantic ");
    assert HashFree("Versioning](https://");
    FreeConcat("and this project " + "adheres to [Semantic ", "Versioning](https://");
    assert HashFree("semver.org/spec/");
    FreeConcat("and this project " + "adheres to [Semantic " + "Versioning](https://", "semver.org/spec/");
    assert HashFree("v2.0.0.html).\n\n");
    FreeConcat("and this project " + "adheres to [Semantic " + "Versioning](https://" + "semver.org/spec/", "v2.0.0.html).\n\n");
  }

  /** The only '#' before the skeleton's `## [Unreleased]` is the title's, followed by a space. */
  lemma PreambleSpaced()
    ensures HashesSpaced(SkeletonPreamble)
  {
    assert HashesSpaced(TitleLine);
    IntroLineFree();
    FormatStartFree();
    FormatEndFree();
    FreeConcat("The format is based " + "on [Keep a Changelog]" + "(https://keepa" + "changelog.com/en/" + "1.1.0/), ",
      "and this project " + "adheres to [Semantic " + "Versioning](https://" + "semver.org/spec/" + "v2.0.0.html).\n\n");
    SpacedConcat(TitleLine, IntroLine);
    SpacedConcat(TitleLine + IntroLine, FormatLine);
  }

  /** In a text starting with `pre`, each '#' inside `pre` is followed by a space inside `pre`. */
  lemma HashesInPreamble(pre: string, t: string)
    requires HashesSpaced(pre) && |pre| <= |t| && t[..|pre|] == pre
    ensures forall j :: 0 <= j < |pre| && t[j] == '#' ==> j + 1 < |pre| && t[j + 1] == ' '
  {
    forall j | 0 <= j < |pre| && t[j] == '#' ensures j + 1 < |pre| && t[j + 1] == ' ' {
      assert pre[j] == t[..|pre|][j];
      assert pre[j + 1] == t[..|pre|][j + 1];
    }
  }

  /** A fresh skeleton references no pull request: no `#` in it is followed by a digit. */
  lemma FreshHasNoRef(pre: string, tok: string)
    requires HashesSpaced(pre) && |tok| >= 2 && tok[0] == '#' && IsDigit(tok[1])
    ensures !HasRef(pre + FreshUnreleased, tok)
  {
    var t := pre + FreshUnreleased;
    assert t[..|pre|] == pre;
    HashesInPreamble(pre, t);
    forall i | 0 <= i && i + |tok| <= |t| ensures !RefAt(t, tok, i) {
      assert t[i..i + |tok|][0] == t[i] && t[i..i + |tok|][1] == t[i + 1];
      if i >= |pre| {
        assert t[i] == FreshUnreleased[i - |pre|] && t[i + 1] == FreshUnreleased[i + 1 - |pre|];
      }
    }
    HasRefIff(t, tok);
  }

  /** A fresh skeleton has no `\n### C\n` marker: it holds no `###`. */
  lemma FreshHasNoMarker(pre: string, category: string)
    requires HashesSpaced(pre)
    ensures !Contains(pre + FreshUnreleased, SectionMarker(category))
  {
    var t := pre + FreshUnreleased;
    var m := SectionMarker(category);
    assert t[..|pre|] == pre;
    HashesInPreamble(pre, t);
    forall i | 0 <= i && i + |m| <= |t| ensures !OccursAt(t, m, i) {
      assert t[i..i + |m|][1] == t[i + 1] && t[i..i + |m|][2] == t[i + 2] && t[i..i + |m|][3] == t[i + 3];
      if i + 1 >= |pre| {
        assert t[i + 1] == FreshUnreleased[i + 1 - |pre|] && t[i + 2] == FreshUnreleased[i + 2 - |pre|];
        assert t[i + 3] == FreshUnreleased[i + 3 - |pre|];
      }
    }
    ContainsIff(t, m);
  }

  /** No `## [Unreleased]\n` starts inside a preamble whose every '#' is followed by a space. */
  lemma NoTitleInPreamble(pre: string)
    requires HashesSpaced(pre)
    ensures forall j :: 0 <= j < |pre| ==> !OccursAt(pre + UnreleasedLine + "\n", UnreleasedLine, j)
  {
    var t := pre + UnreleasedLine + "\n";
    assert t[..|pre|] == pre;
    HashesInPreamble(pre, t);
    forall j | 0 <= j < |pre| ensures !OccursAt(t, UnreleasedLine, j) {
      if j + |UnreleasedLine| <= |t| {
        assert t[j..j + |UnreleasedLine|][0] == t[j] && t[j..j + |UnreleasedLine|][1] == t[j + 1];
      }
    }
  }

  /** Without the marker, `ensure_section` opens the section at the first `## [Unreleased]\n`. */
  lemma EnsureSectionFirst(a: string, b: string, category: string)
    requires !Contains(a + UnreleasedLine + b, SectionMarker(category))
    requires forall j :: 0 <= j < |a| ==> !OccursAt(a + UnreleasedLine + b, UnreleasedLine, j)
    ensures EnsureSection(a + UnreleasedLine + b, category)
      == a + SectionOpening(category) + ReplaceAll(b, UnreleasedLine, SectionOpening(category))
  {
    ReplaceAllFirst(a, UnreleasedLine, b, SectionOpening(category));
  }

  /** `ensure_section` on a fresh skeleton opens the section under its one `## [Unreleased]`. */
  lemma SectionOnFresh(pre: string, category: string)
    requires HashesSpaced(pre)
    ensures EnsureSection(pre + FreshUnreleased, category) == pre + FreshUnreleased + Heading(category) + "\n\n"
  {
    FreshForm(pre);
    FreshHasNoMarker(pre, category);
    NoTitleInPreamble(pre);
    EnsureSectionFirst(pre, "\n", category);
    ReplaceShort("\n", UnreleasedLine, SectionOpening(category));
    OpenedShape(pre, category);
  }

  /** Regrouping of the skeleton's last line. */
  lemma FreshForm(pre: string)
    ensures pre + FreshUnreleased == pre + UnreleasedLine + "\n"
  {
  }

  /** The opening followed by the skeleton's blank line is the fresh line, the heading and a blank line. */
  lemma OpenedShape(pre: string, category: string)
    ensures pre + SectionOpening(category) + "\n" == pre + FreshUnreleased + Heading(category) + "\n\n"
  {
  }

  /** The search ends at the heading whose match is the leftmost and nearest one. */
  lemma MatchEndAt(t: string, category: string, s: int, k: int)
    requires IsLeftmostLazy(t, category, s, k)
    ensures MatchEnd(t, category) == Some(k + |Heading(category)|)
  {
  }

  /**
    A match is the leftmost and nearest one when every '#' before it is followed by a space
    and no '#' stands between its `## [Unreleased]` and its heading.
  */
  lemma LeftmostByGaps(t: string, category: string, s: int, k: int)
    requires MatchesAt(t, category, s, k)
    requires forall j :: 0 <= j < s && t[j] == '#' ==> j + 1 < |t| && t[j + 1] == ' '
    requires forall j :: s + |UnreleasedTitle| <= j < k ==> t[j] != '#'
    ensures IsLeftmostLazy(t, category, s, k)
  {
    forall s2, k2 | MatchesAt(t, category, s2, k2) ensures s <= s2 && (s == s2 ==> k <= k2) {
      assert t[k2..k2 + |Heading(category)|][0] == t[k2];
      assert t[s2..s2 + |UnreleasedTitle|][0] == t[s2] && t[s2..s2 + |UnreleasedTitle|][1] == t[s2 + 1];
    }
  }

  /** In the opened skeleton, the search matches the new heading right under `## [Unreleased]`. */
  lemma FreshLeftmost(pre: string, category: string)
    requires HashesSpaced(pre)
    ensures IsLeftmostLazy(pre + FreshUnreleased + Heading(category) + "\n\n", category, |pre|, |pre| + |FreshUnreleased|)
  {
    var h := Heading(category);
    var t := pre + FreshUnreleased + h + "\n\n";
    var s, k := |pre|, |pre| + |FreshUnreleased|;
    assert t[s..s + |UnreleasedTitle|] == UnreleasedTitle;
    assert t[k..k + |h|] == h;
    assert t[s + |UnreleasedTitle|] == '\n' && t[s + |UnreleasedTitle| + 1] == '\n';
    assert t[..|pre|] == pre;
    HashesInPreamble(pre, t);
    LeftmostByGaps(t, category, s, k);
  }

  /** After the section is opened, the splice puts the insertion right under the new heading. */
  lemma SpliceOnFresh(pre: string, category: string, insertion: string)
    requires HashesSpaced(pre)
    ensures var t := pre + FreshUnreleased + Heading(category);
      Splice(t + "\n\n", category, insertion) == t + insertion + "\n\n"
  {
    var t := pre + FreshUnreleased + Heading(category);
    var e := |t|;
    FreshLeftmost(pre, category);
    MatchEndAt(t + "\n\n", category, |pre|, |pre| + |FreshUnreleased|);
    var r := Splice(t + "\n\n", category, insertion);
    assert r == r[..e] + r[e..e + |insertion|] + r[e + |insertion|..];
    assert (t + "\n\n")[..e] == t && (t + "\n\n")[e..] == "\n\n";
  }

  /**
    Without a CHANGELOG.md the run writes the skeleton with the category's
    section opened right under its one `## [Unreleased]` heading and the
    insertion as the section's first line.
   */
  lemma MergeIntoSkeleton(pr: nat, author: string, p: Parsed)
    ensures var category := GetOr(p.category, "Changed");
      Merge(pr, author, p, None)
      == SkeletonPreamble + FreshUnreleased + Heading(category)
         + Insertion(p, NormalRefs(GetOr(p.references, []), pr, author)) + "\n\n"
  {
    var category := GetOr(p.category, "Changed");
    PreambleSpaced();
    FreshHasNoRef(SkeletonPreamble, PrRef(pr));
    SectionOnFresh(SkeletonPreamble, category);
    SpliceOnFresh(SkeletonPreamble, category, Insertion(p, NormalRefs(GetOr(p.references, []), pr, author)));
  }

  /** `"## [Unreleased]\n"` holds `"## [Unreleased]"`, so a text with the line has the title. */
  lemma LineHasTitle(t: string)
    requires Contains(t, UnreleasedLine)
    ensures Contains(t, UnreleasedTitle)
  {
    assert OccursAt(UnreleasedLine, UnreleasedTitle, 0);
    OccursAtContains(UnreleasedLine, UnreleasedTitle, 0);
    ContainsTrans(t, UnreleasedLine, UnreleasedTitle);
  }

  /**
    Ensuring the section and splicing either changes nothing or places the
    insertion, and a text without any `## [Unreleased]` comes out unchanged.
   */
  lemma SectionThenSplice(text: string, category: string, insertion: string)
    ensures var r := Splice(EnsureSection(text, category), category, insertion);
      && (r == text || Contains(r, insertion))
      && (!Contains(text, UnreleasedTitle) ==> r == text)
  {
    if Contains(text, UnreleasedLine) {
      LineHasTitle(text);
    }
  }

  /** A document whose only `### Fixed` heading belongs to an older release. */
  const FixedOnlyInRelease := "## [Unreleased]\n## [1.0.0]\n### Fixed\n"

  lemma FixedMarkerPresent()
    ensures EnsureSection(FixedOnlyInRelease, "Fixed") == FixedOnlyInRelease
  {
    var t := FixedOnlyInRelease;
    assert t[26..37] == SectionMarker("Fixed");
    OccursAtContains(t, SectionMarker("Fixed"), 26);
  }

  /** When the pattern can match, and only with headings from `lo` on, the search ends past `lo`. */
  lemma MatchEndFrom(t: string, category: string, s: int, k: int, lo: int)
    requires MatchesAt(t, category, s, k)
    requires forall s2, k2 :: MatchesAt(t, category, s2, k2) ==> lo <= k2
    ensures MatchEnd(t, category).Some? && MatchEnd(t, category).value >= lo + |Heading(category)|
  {
  }

  /** In that document every match of the pattern ends in a heading past the `## [1.0.0]` line. */
  lemma FixedHeadingsLate()
    ensures MatchesAt(FixedOnlyInRelease, "Fixed", 0, 27)
    ensures forall s, k :: MatchesAt(FixedOnlyInRelease, "Fixed", s, k) ==> 17 <= k
  {
    var t := FixedOnlyInRelease;
    var h := Heading("Fixed");
    assert t[..15] == UnreleasedTitle && t[27..37] == h;
    assert t[15] == '\n' && t[18] == ' ';
    forall s, k | MatchesAt(t, "Fixed", s, k) ensures 17 <= k {
      assert t[k..k + |h|][0] == t[k] && t[k..k + |h|][2] == t[k + 2];
    }
  }

  /**
    The lazy search is not confined to the `## [Unreleased]` part: when
    `### Fixed` occurs only under an older release, no section is added and the
    bullet goes below that older release's heading.
   */
  lemma InsertsUnderOlderRelease(insertion: string)
    ensures exists e :: (27 <= e <= |FixedOnlyInRelease|
      && Splice(EnsureSection(FixedOnlyInRelease, "Fixed"), "Fixed", insertion)
         == FixedOnlyInRelease[..e] + insertion + FixedOnlyInRelease[e..])
  {
    FixedMarkerPresent();
    FixedHeadingsLate();
    var t := FixedOnlyInRelease;
    MatchEndFrom(t, "Fixed", 0, 27, 17);
    var e := MatchEnd(t, "Fixed").value;
    var r := Splice(t, "Fixed", insertion);
    assert r == r[..e] + r[e..e + |insertion|] + r[e + |insertion|..];
  }

  /** A text that holds an insertion references each of its references as a whole token. */
  lemma InsertionMarksRef(t: string, p: Parsed, refs: seq<string>, x: string)
    requires x in refs && Contains(t, Insertion(p, refs))
    ensures HasRef(t, x)
  {
    var insertion := Insertion(p, refs);
    ContainsIff(t, insertion);
    var j :| OccursAt(t, insertion, j);
    InsertionRecordsRefs(p, refs, x);
    var k :| RefAt(insertion, x, k) && k + |x| < |insertion|;
    RefWithin(t, insertion, j, x, k);
  }

  /** The text the script works on: the file's content, or the skeleton it writes first. */
  function InitialText(doc: Option<string>): string {
    if doc.Some? then doc.value else Skeleton
  }

  /**
    One run on the text of the changelog: left alone when it already references
    `#<pr>`, else the section is ensured and the bullet spliced in.
   */
  function MergeText(pr: nat, author: string, p: Parsed, text: string): string {
    if HasRef(text, PrRef(pr)) then text
    else
      var category := GetOr(p.category, "Changed");
      var insertion := Insertion(p, NormalRefs(GetOr(p.references, []), pr, author));
      Splice(EnsureSection(text, category), category, insertion)
  }

  /** The document after one run for pull request `pr`. */
  function Merge(pr: nat, author: string, p: Parsed, doc: Option<string>): string {
    MergeText(pr, author, p, InitialText(doc))
  }

  /**
    A run leaves a text that references `#<pr>` alone, leaves a text without an
    `## [Unreleased]` heading alone, and otherwise leaves `#<pr>` in the text.
   */
  lemma MergeTextFacts(pr: nat, author: string, p: Parsed, text: string)
    ensures var r := MergeText(pr, author, p, text);
      && (HasRef(text, PrRef(pr)) ==> r == text)
      && (!Contains(text, UnreleasedTitle) ==> r == text)
      && (r == text || HasRef(r, PrRef(pr)))
  {
    if !HasRef(text, PrRef(pr)) {
      var category := GetOr(p.category, "Changed");
      var refs := NormalRefs(GetOr(p.references, []), pr, author);
      var insertion := Insertion(p, refs);
      var r := Splice(EnsureSection(text, category), category, insertion);
      SectionThenSplice(text, category, insertion);
      if r != text {
        assert PrRef(pr) in refs by {
          assert PrRef(pr) in Elems(GetOr(p.references, []) + [PrRef(pr), "@" + author]);
        }
        InsertionMarksRef(r, p, refs, PrRef(pr));
      }
    }
  }

  /** A second run for the same pull request, with the same reply, leaves the document as the first run left it. */
  lemma MergeIdempotent(pr: nat, author: string, p: Parsed, doc: Option<string>)
    ensures Merge(pr, author, p, Some(Merge(pr, author, p, doc))) == Merge(pr, author, p, doc)
  {
    var text := InitialText(doc);
    MergeTextFacts(pr, author, p, text);
    var r := MergeText(pr, author, p, text);
    if r != text {
      MergeTextFacts(pr, author, p, r);
    }
  }

  /**
    A rerun asks the generator again, so its reply may differ. Once a run has
    changed the document, or found `#<pr>` already there, a rerun with any
    reply leaves the document as it is.
   */
  lemma RerunLeavesAlone(pr: nat, author: string, p: Parsed, p2: Parsed, doc: Option<string>)
    requires Merge(pr, author, p, doc) != InitialText(doc) || HasRef(InitialText(doc), PrRef(pr))
    ensures Merge(pr, author, p2, Some(Merge(pr, author, p, doc))) == Merge(pr, author, p, doc)
  {
    MergeTextFacts(pr, author, p, InitialText(doc));
  }

  function Filenames(files: seq<ChangedFile>): (names: seq<string>)
    ensures |names| == |files| && forall i :: 0 <= i < |files| ==> names[i] == files[i].filename
  {
    seq(|files|, i requires 0 <= i < |files| => files[i].filename)
  }

  /** `bullet_parts`, the bullet, `refs_str` and the migration line, built by appends. */
  method BuildInsertion(parsed: Parsed, refs: seq<string>) returns (insertion: string)
    ensures insertion == Insertion(parsed, refs)
  {
    var bulletParts: seq<string> := [];
    if Truthy(parsed.scope) {
      bulletParts := bulletParts + ["[" + parsed.scope.value + "]"];
    }
    if parsed.breaking == Some(true) {
      bulletParts := bulletParts + [BreakingTag];
    }
    bulletParts := bulletParts + [GetOr(parsed.summary, "")];
    assert bulletParts == BulletParts(parsed);

    var bullet := " - " + Join(NonEmpty(bulletParts), " ");
    var refsStr := " (" + Join(refs, ", ") + ")";
    insertion := bullet + refsStr + "\n";
    if parsed.breaking == Some(true) && Truthy(parsed.migration) {
      insertion := insertion + MigrationLine(parsed.migration.value);
    }
  }

  /**
    The script from the file listing to the final write: scope guess,
    changed-file summary, the reply or its fallback, the references, then the
    edit of the document.
   */
  method UpdateChangelog(pr: nat, author: string, title: string, files: seq<ChangedFile>,
                         reply: Option<Parsed>, doc: Option<string>)
    returns (scope: string, diffSummary: string, final: string)
    ensures IsScopeGuess(Filenames(files), scope)
    ensures diffSummary == Join(SummaryLines(files, 25), "\n")
    ensures final == Merge(pr, author, Resolve(reply, title, scope), doc)
  {
    scope := ScopeGuess(Filenames(files));
    diffSummary := SummarizeFiles(files, 25);
    var parsed := if reply.Some? then reply.value
      else Parsed(Some("Changed"), Some(Take(Strip(title), 200)), Some(scope), Some(false), Some(""), Some([]));
    final := EditDocument(pr, author, parsed, doc);
  }

  /**
    The edit of CHANGELOG.md, reassigning `text` step by step: the skeleton, the
    guard, the section, the bullet parts, the insertion and the splice.
   */
  method EditDocument(pr: nat, author: string, parsed: Parsed, doc: Option<string>) returns (final: string)
    ensures final == Merge(pr, author, parsed, doc)
  {
    var refs := NormalizeReferences(GetOr(parsed.references, []), pr, author);

    var text := if doc.Some? then doc.value else Skeleton;
    if HasRef(text, PrRef(pr)) {
      final := text;
      return;
    }

    var category := GetOr(parsed.category, "Changed");
    text := EnsureSection(text, category);
    ghost var sectioned := text;

    var insertion := BuildInsertion(parsed, refs);

    var m := MatchEnd(text, category);
    if m.Some? {
      text := text[..m.value] + insertion + text[m.value..];
    } else {
      text := ReplaceAll(text, UnreleasedLine, FallbackOpening(category, insertion));
    }
    assert text == Splice(sectioned, category, insertion);
    final := text;
  }
}
