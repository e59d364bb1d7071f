/**
  The JavaScript string built-ins the citation tool relies on, written out:
  the white-space class `\s` and `String.prototype.trim`, `Array.prototype.join`,
  `filter(Boolean)` and `map(trim)` on arrays of strings, a global literal
  `replace(/pat/g, rep)` and the `replace(/\s+/g, ' ')` normalisation.
*/
module JsStrings {

  /** The ECMAScript WhiteSpace and LineTerminator code points: the set that both
      the regular-expression class `\s` and `String.prototype.trim` use. */
  predicate IsWhitespace(c: char)
  {
    || c == '\t' || c == '\n' || c == '\U{000B}' || c == '\U{000C}' || c == '\r'
    || c == ' ' || c == '\U{00A0}' || c == '\U{1680}' || ('\U{2000}' <= c <= '\U{200A}')
    || c == '\U{2028}' || c == '\U{2029}' || c == '\U{202F}' || c == '\U{205F}'
    || c == '\U{3000}' || c == '\U{FEFF}'
  }

  predicate StartsWith(s: string, prefix: string)
  {
    |prefix| <= |s| && s[..|prefix|] == prefix
  }

  predicate EndsWith(s: string, suffix: string)
  {
    |suffix| <= |s| && s[|s| - |suffix|..] == suffix
  }

  /** `q` occurs in `s` starting at index `i`. */
  predicate OccursAt(s: string, q: string, i: int)
  {
    0 <= i && i + |q| <= |s| && s[i..i + |q|] == q
  }

  /** `s.includes(q)`. */
  ghost predicate Contains(s: string, q: string)
  {
    exists i :: OccursAt(s, q, i)
  }

  /** Every white-space character of `s` is a plain space. */
  predicate OnlySpaces(s: string)
  {
    forall j :: 0 <= j < |s| && IsWhitespace(s[j]) ==> s[j] == ' '
  }

  /** No two neighbouring characters of `s` are both white space. */
  predicate NoAdjacentWhitespace(s: string)
  {
    forall j :: 0 <= j < |s| - 1 ==> !(IsWhitespace(s[j]) && IsWhitespace(s[j + 1]))
  }

  /** `s` neither starts nor ends with white space. */
  predicate Trimmed(s: string)
  {
    s == [] || (!IsWhitespace(s[0]) && !IsWhitespace(s[|s| - 1]))
  }

  /** `s` with its leading white space removed (the left half of `trim`). */
  function TrimStart(s: string): (r: string)
    ensures |r| <= |s| && r == s[|s| - |r|..]
    ensures r == [] || !IsWhitespace(r[0])
    ensures forall j :: 0 <= j < |s| - |r| ==> IsWhitespace(s[j])
  {
    if s != [] && IsWhitespace(s[0]) then TrimStart(s[1..]) else s
  }

  /** `s` with its trailing white space removed (the right half of `trim`). */
  function TrimEnd(s: string): (r: string)
    ensures |r| <= |s| && r == s[..|r|]
    ensures r == [] || !IsWhitespace(r[|r| - 1])
    ensures forall j :: |r| <= j < |s| ==> IsWhitespace(s[j])
  {
    if s != [] && IsWhitespace(s[|s| - 1]) then TrimEnd(s[..|s| - 1]) else s
  }

  /** `String.prototype.trim`. */
  function Trim(s: string): (r: string)
    ensures Trimmed(r)
  {
    TrimEnd(TrimStart(s))
  }

  /** `Array.prototype.join(sep)` on an array of strings. */
  function Join(parts: seq<string>, sep: string): string
  {
    if |parts| == 0 then ""
    else if |parts| == 1 then parts[0]
    else parts[0] + sep + Join(parts[1..], sep)
  }

  /** `parts.filter(Boolean)`: the non-empty strings of `parts`, in order. */
  function KeepNonEmpty(parts: seq<string>): (r: seq<string>)
    ensures |r| <= |parts|
    ensures forall j :: 0 <= j < |r| ==> r[j] != "" && r[j] in parts
    ensures r == [] <==> forall j :: 0 <= j < |parts| ==> parts[j] == ""
  {
    if parts == [] then []
    else if parts[0] == "" then KeepNonEmpty(parts[1..])
    else [parts[0]] + KeepNonEmpty(parts[1..])
  }

  /** `parts.map(p => p.trim())`. */
  function TrimEach(parts: seq<string>): (r: seq<string>)
    ensures |r| == |parts|
    ensures forall j :: 0 <= j < |r| ==> r[j] == Trim(parts[j])
  {
    seq(|parts|, j requires 0 <= j < |parts| => Trim(parts[j]))
  }

  /** `s.replace(/pat/g, rep)` for a pattern without special characters:
      scanning from the left, each occurrence of `pat` that does not overlap
      an earlier replaced one becomes `rep`. */
  function ReplaceAll(s: string, pat: string, rep: string): string
    requires pat != []
    decreases |s|
  {
    if s == [] then ""
    else if StartsWith(s, pat) then rep + ReplaceAll(s[|pat|..], pat, rep)
    else [s[0]] + ReplaceAll(s[1..], pat, rep)
  }

  /** `s.replace(/\s+/g, ' ')`: every maximal run of white space becomes a
      single space. */
  function CollapseWhitespace(s: string): (r: string)
    ensures (r == []) == (s == [])
    ensures s != [] ==> (IsWhitespace(r[0]) <==> IsWhitespace(s[0]))
    ensures OnlySpaces(r)
    ensures NoAdjacentWhitespace(r)
    decreases |s|
  {
    if s == [] then ""
    else if IsWhitespace(s[0]) then " " + CollapseWhitespace(TrimStart(s))
    else [s[0]] + CollapseWhitespace(s[1..])
  }

  /** The characters of `s` that are not white space, in order. */
  function NonWhitespace(s: string): string
  {
    if s == [] then ""
    else if IsWhitespace(s[0]) then NonWhitespace(s[1..])
    else [s[0]] + NonWhitespace(s[1..])
  }

  // ---------------------------------------------------------------------
  // Substrings

  lemma ContainsInSuffix(s: string, q: string, m: nat)
    requires m <= |s|
    ensures Contains(s[m..], q) ==> Contains(s, q)
  {
    if Contains(s[m..], q) {
      var i :| OccursAt(s[m..], q, i);
      assert s[i + m..i + m + |q|] == s[m..][i..i + |q|];
      assert OccursAt(s, q, i + m);
    }
  }

  lemma ContainsInPrefix(s: string, q: string, m: nat)
    requires m <= |s|
    ensures Contains(s[..m], q) ==> Contains(s, q)
  {
    if Contains(s[..m], q) {
      var i :| OccursAt(s[..m], q, i);
      assert s[i..i + |q|] == s[..m][i..i + |q|];
      assert OccursAt(s, q, i);
    }
  }

  /** `Trim(s)` is the slice of `s` that starts where the leading white space ends. */
  lemma TrimIsSlice(s: string)
    ensures var a := |s| - |TrimStart(s)|;
      a + |Trim(s)| <= |s| && Trim(s) == s[a..a + |Trim(s)|]
  {
  }

  lemma TrimKeepsAbsence(s: string, q: string)
    ensures Contains(Trim(s), q) ==> Contains(s, q)
  {
    var t := TrimStart(s);
    ContainsInPrefix(t, q, |Trim(s)|);
    ContainsInSuffix(s, q, |s| - |t|);
  }

  /** Removing white space from the ends keeps the spacing properties of the middle. */
  lemma TrimKeepsSpacing(s: string)
    requires OnlySpaces(s) && NoAdjacentWhitespace(s)
    ensures OnlySpaces(Trim(s)) && NoAdjacentWhitespace(Trim(s))
  {
    TrimIsSlice(s);
    var a := |s| - |TrimStart(s)|;
    var r := Trim(s);
    forall j | 0 <= j < |r| && IsWhitespace(r[j]) ensures r[j] == ' ' {
      assert r[j] == s[a + j];
    }
    forall j | 0 <= j < |r| - 1 ensures !(IsWhitespace(r[j]) && IsWhitespace(r[j + 1])) {
      assert r[j] == s[a + j] && r[j + 1] == s[a + j + 1];
    }
  }

  lemma TrimOfTrimmed(s: string)
    requires Trimmed(s)
    ensures Trim(s) == s
  {
  }

  // ---------------------------------------------------------------------
  // Global replacement

  /** An output that starts with a word free of the replacement's first character
      comes from an input that starts with the same word. */
  lemma {:induction false} ReplaceAllPrefix(s: string, pat: string, rep: string, w: string)
    requires pat != [] && rep != []
    requires rep[0] !in w
    ensures StartsWith(ReplaceAll(s, pat, rep), w) ==> StartsWith(s, w)
    decreases |s|
  {
    var r := ReplaceAll(s, pat, rep);
    if w != [] && s != [] {
      if StartsWith(s, pat) {
        assert r[0] == rep[0];
        assert w[0] in w;
      } else {
        var r' := ReplaceAll(s[1..], pat, rep);
        assert r == [s[0]] + r';
        ReplaceAllPrefix(s[1..], pat, rep, w[1..]);
        if StartsWith(r, w) {
          assert r'[..|w| - 1] == r[1..|w|] == w[1..];
          assert s[..|w|] == [s[0]] + s[1..][..|w| - 1];
        }
      }
    }
  }

  /** No occurrence of `pat` survives `ReplaceAll(s, pat, rep)`, and no
      occurrence of any other `q` is created, when `rep` shares no character
      with `q`. */
  lemma {:induction false} ReplaceAllAvoids(s: string, pat: string, rep: string, q: string)
    requires pat != [] && rep != [] && q != []
    requires forall j :: 0 <= j < |rep| ==> rep[j] !in q
    requires q == pat || !Contains(s, q)
    ensures !Contains(ReplaceAll(s, pat, rep), q)
    decreases |s|
  {
    if s != [] {
      if StartsWith(s, pat) {
        var t := s[|pat|..];
        ContainsInSuffix(s, q, |pat|);
        ReplaceAllAvoids(t, pat, rep, q);
        LeadAvoids(rep, ReplaceAll(t, pat, rep), q);
        TailAvoids(rep, ReplaceAll(t, pat, rep), q);
      } else {
        var t := s[1..];
        ContainsInSuffix(s, q, 1);
        ReplaceAllAvoids(t, pat, rep, q);
        ReplaceAllPrefix(s, pat, rep, q);
        assert !OccursAt(s, q, 0);
        assert !OccursAt(ReplaceAll(s, pat, rep), q, 0);
        TailAvoids([s[0]], ReplaceAll(t, pat, rep), q);
      }
    }
  }

  /** Text without an occurrence of `pat` is left as it is. */
  lemma {:induction false} ReplaceAllIdentity(s: string, pat: string, rep: string)
    requires pat != []
    requires !Contains(s, pat)
    ensures ReplaceAll(s, pat, rep) == s
    decreases |s|
  {
    if s != [] {
      assert !OccursAt(s, pat, 0);
      ContainsInSuffix(s, pat, 1);
      ReplaceAllIdentity(s[1..], pat, rep);
    }
  }

  /** The first occurrence of `pat` is the one replaced, and the text before it
      is kept, when no occurrence of `pat` starts before it. */
  lemma {:induction false} ReplaceAllFirstOccurrence(a: string, pat: string, b: string, rep: string)
    requires pat != []
    requires !Contains(a + pat[..|pat| - 1], pat)
    ensures ReplaceAll(a + pat + b, pat, rep) == a + rep + ReplaceAll(b, pat, rep)
    decreases |a|
  {
    var s := a + pat + b;
    if a == [] {
      assert s == pat + b;
      assert s[|pat|..] == b;
    } else {
      PatternNotFirst(a, pat, b);
      ReplaceAllFirstOccurrence(a[1..], pat, b, rep);
      var t := ReplaceAll(b, pat, rep);
      assert ReplaceAll(s, pat, rep) == [a[0]] + (a[1..] + rep + t);
      ConsRegroup(a, rep, t);
    }
  }

  /** The step of `ReplaceAllFirstOccurrence`: `a + pat + b` does not start with
      `pat`, loses its first character to `a`, and the rest still has no early
      occurrence. */
  lemma PatternNotFirst(a: string, pat: string, b: string)
    requires pat != [] && a != []
    requires !Contains(a + pat[..|pat| - 1], pat)
    ensures !StartsWith(a + pat + b, pat)
    ensures (a + pat + b)[1..] == a[1..] + pat + b && (a + pat + b)[0] == a[0]
    ensures !Contains(a[1..] + pat[..|pat| - 1], pat)
  {
    var s := a + pat + b;
    var u := a + pat[..|pat| - 1];
    assert s[..|pat|] == u[..|pat|];
    assert !OccursAt(u, pat, 0);
    DropFirst(a, pat[..|pat| - 1]);
    ContainsInSuffix(u, pat, 1);
    assert s == a + (pat + b);
    DropFirst(a, pat + b);
  }

  lemma ConsRegroup(a: string, b: string, c: string)
    requires a != []
    ensures [a[0]] + (a[1..] + b + c) == a + b + c
  {
    assert a == [a[0]] + a[1..];
  }

  lemma DropFirst(a: string, b: string)
    requires a != []
    ensures (a + b)[1..] == a[1..] + b
    ensures (a + b)[0] == a[0]
  {
  }

  /** Occurrences in `c + t` that start inside `t` are the occurrences in `t`. */
  lemma TailAvoids(c: string, t: string, q: string)
    requires !Contains(t, q)
    requires forall i :: 0 <= i < |c| ==> !OccursAt(c + t, q, i)
    ensures !Contains(c + t, q)
  {
    forall i ensures !OccursAt(c + t, q, i) {
      if |c| <= i && i + |q| <= |c + t| {
        assert (c + t)[i..i + |q|] == t[i - |c|..i - |c| + |q|];
        assert !OccursAt(t, q, i - |c|);
      }
    }
  }

  /** No occurrence of `q` starts inside a text `c` that shares no character with `q`. */
  lemma LeadAvoids(c: string, t: string, q: string)
    requires q != []
    requires forall j :: 0 <= j < |c| ==> c[j] !in q
    ensures forall i :: 0 <= i < |c| ==> !OccursAt(c + t, q, i)
  {
    forall i | 0 <= i < |c| ensures !OccursAt(c + t, q, i) {
      if i + |q| <= |c + t| {
        assert (c + t)[i..i + |q|][0] == c[i];
        assert q[0] in q;
      }
    }
  }

  // ---------------------------------------------------------------------
  // White-space normalisation

  /** An output that starts with a word without white space comes from an input
      that starts with the same word. */
  lemma {:induction false} CollapsePrefix(s: string, w: string)
    requires forall j :: 0 <= j < |w| ==> !IsWhitespace(w[j])
    ensures StartsWith(CollapseWhitespace(s), w) ==> StartsWith(s, w)
    decreases |s|
  {
    var r := CollapseWhitespace(s);
    if w != [] && s != [] && !IsWhitespace(s[0]) {
      var r' := CollapseWhitespace(s[1..]);
      assert r == [s[0]] + r';
      CollapsePrefix(s[1..], w[1..]);
      if StartsWith(r, w) {
        assert r'[..|w| - 1] == r[1..|w|] == w[1..];
        assert s[..|w|] == [s[0]] + s[1..][..|w| - 1];
      }
    }
  }

  /** Normalising white space creates no occurrence of a word without white space. */
  lemma {:induction false} CollapseAvoids(s: string, q: string)
    requires q != []
    requires forall j :: 0 <= j < |q| ==> !IsWhitespace(q[j])
    requires !Contains(s, q)
    ensures !Contains(CollapseWhitespace(s), q)
    decreases |s|
  {
    if s != [] {
      var t := if IsWhitespace(s[0]) then TrimStart(s) else s[1..];
      ContainsInSuffix(s, q, |s| - |t|);
      CollapseAvoids(t, q);
      if IsWhitespace(s[0]) {
        CollapseSpaceStep(s, q);
      } else {
        CollapseCharStep(s, q);
      }
    }
  }
  /** The step of `CollapseAvoids` at a white-space run, which becomes one space. */
  lemma CollapseSpaceStep(s: string, q: string)
    requires s != [] && IsWhitespace(s[0])
    requires q != [] && forall j :: 0 <= j < |q| ==> !IsWhitespace(q[j])
    requires !Contains(CollapseWhitespace(TrimStart(s)), q)
    ensures !Contains(CollapseWhitespace(s), q)
  {
    var rest := CollapseWhitespace(TrimStart(s));
    assert CollapseWhitespace(s) == " " + rest;
    SpaceBeforeAvoids(rest, q);
  }

  /** A space put in front creates no occurrence of a word without white space. */
  lemma SpaceBeforeAvoids(t: string, q: string)
    requires q != [] && forall j :: 0 <= j < |q| ==> !IsWhitespace(q[j])
    requires !Contains(t, q)
    ensures !Contains(" " + t, q)
  {
    assert ' ' !in q by {
      forall j | 0 <= j < |q| ensures q[j] != ' ' {
        assert !IsWhitespace(q[j]);
      }
    }
    LeadAvoids(" ", t, q);
    TailAvoids(" ", t, q);
  }

  /** The step of `CollapseAvoids` at a character kept as it is. */
  lemma CollapseCharStep(s: string, q: string)
    requires s != [] && !IsWhitespace(s[0])
    requires q != [] && forall j :: 0 <= j < |q| ==> !IsWhitespace(q[j])
    requires !Contains(s, q) && !Contains(CollapseWhitespace(s[1..]), q)
    ensures !Contains(CollapseWhitespace(s), q)
  {
    var r := CollapseWhitespace(s);
    assert r == [s[0]] + CollapseWhitespace(s[1..]);
    CollapsePrefix(s, q);
    assert !OccursAt(s, q, 0);
    assert !OccursAt(r, q, 0);
    TailAvoids([s[0]], CollapseWhitespace(s[1..]), q);
  }


  /** Text already single-spaced is left as it is. */
  lemma {:induction false} CollapseIdentity(s: string)
    requires OnlySpaces(s) && NoAdjacentWhitespace(s)
    ensures CollapseWhitespace(s) == s
    decreases |s|
  {
    if s != [] {
      assert OnlySpaces(s[1..]) && NoAdjacentWhitespace(s[1..]);
      CollapseIdentity(s[1..]);
      if IsWhitespace(s[0]) {
        assert s[1..] == [] || !IsWhitespace(s[1..][0]);
        assert TrimStart(s) == TrimStart(s[1..]) == s[1..];
      }
    }
  }

  // ---------------------------------------------------------------------
  // Non-white-space content

  lemma {:induction false} NonWhitespaceAppend(a: string, b: string)
    ensures NonWhitespace(a + b) == NonWhitespace(a) + NonWhitespace(b)
    decreases |a|
  {
    if a != [] {
      DropFirst(a, b);
      NonWhitespaceAppend(a[1..], b);
      if !IsWhitespace(a[0]) {
        assert NonWhitespace(a + b) == [a[0]] + NonWhitespace(a[1..] + b);
      }
    } else {
      assert a + b == b;
    }
  }

  lemma {:induction false} TrimStartKeepsContent(s: string)
    ensures NonWhitespace(TrimStart(s)) == NonWhitespace(s)
    decreases |s|
  {
    if s != [] && IsWhitespace(s[0]) {
      TrimStartKeepsContent(s[1..]);
    }
  }

  lemma {:induction false} TrimEndKeepsContent(s: string)
    ensures NonWhitespace(TrimEnd(s)) == NonWhitespace(s)
    decreases |s|
  {
    if s != [] && IsWhitespace(s[|s| - 1]) {
      var p := s[..|s| - 1];
      TrimEndKeepsContent(p);
      assert s == p + [s[|s| - 1]];
      NonWhitespaceAppend(p, [s[|s| - 1]]);
    }
  }

  /** `trim` removes white space only. */
  lemma TrimKeepsContent(s: string)
    ensures NonWhitespace(Trim(s)) == NonWhitespace(s)
  {
    TrimStartKeepsContent(s);
    TrimEndKeepsContent(TrimStart(s));
  }

  /** Normalising white space changes white space only. */
  lemma {:induction false} CollapseKeepsContent(s: string)
    ensures NonWhitespace(CollapseWhitespace(s)) == NonWhitespace(s)
    decreases |s|
  {
    if s != [] {
      if IsWhitespace(s[0]) {
        var t := TrimStart(s);
        CollapseKeepsContent(t);
        TrimStartKeepsContent(s);
        assert CollapseWhitespace(s) == " " + CollapseWhitespace(t);
        assert (" " + CollapseWhitespace(t))[1..] == CollapseWhitespace(t);
      } else {
        CollapseKeepsContent(s[1..]);
        assert CollapseWhitespace(s) == [s[0]] + CollapseWhitespace(s[1..]);
        assert ([s[0]] + CollapseWhitespace(s[1..]))[1..] == CollapseWhitespace(s[1..]);
      }
    }
  }

  // ---------------------------------------------------------------------
  // Join, filter and map

  lemma JoinOfTwo(p: seq<string>, sep: string)
    requires |p| == 2
    ensures Join(p, sep) == p[0] + sep + p[1]
  {
  }

  lemma JoinOfThree(p: seq<string>, sep: string)
    requires |p| == 3
    ensures Join(p, sep) == p[0] + sep + p[1] + sep + p[2]
  {
    assert Join(p[1..], sep) == p[1] + sep + Join(p[1..][1..], sep);
    Regroup4(p[0], sep, p[1] + sep, p[2]);
    Assoc3(p[0] + sep, p[1], sep);
  }

  /** A character absent from every part and from the separator is absent from the join. */
  lemma {:induction false} JoinAvoids(parts: seq<string>, sep: string, c: char)
    requires c !in sep
    requires forall j :: 0 <= j < |parts| ==> c !in parts[j]
    ensures c !in Join(parts, sep)
    decreases |parts|
  {
    if |parts| > 1 {
      JoinAvoids(parts[1..], sep, c);
    }
  }

  /** Trimming only removes characters. */
  lemma TrimAvoids(s: string, c: char)
    ensures c in Trim(s) ==> c in s
  {
    TrimIsSlice(s);
  }

  // ---------------------------------------------------------------------
  // Splitting concatenations

  /** `clause` is inserted into `base` at index `k`. */
  predicate InsertedAt(r: string, base: string, k: int, clause: string)
  {
    0 <= k <= |base| && r == base[..k] + clause + base[k..]
  }

  lemma EndsWithAfter(s: string, t: string, x: string)
    requires EndsWith(t, x)
    ensures EndsWith(s + t, x)
  {
    assert (s + t)[|s + t| - |x|..] == t[|t| - |x|..];
  }

  lemma Assoc7(a: string, b: string, c: string, d: string, e: string, f: string, g: string)
    ensures a + b + c + d + e + f + g == a + (b + c + d + e + f + g)
  {
  }

  lemma AppendEnds(a: string, b: string)
    ensures StartsWith(a + b, a) && EndsWith(a + b, b)
  {
    assert (a + b)[..|a|] == a;
    assert (a + b)[|a|..] == b;
  }

  lemma Insert(a: string, clause: string, b: string)
    ensures InsertedAt(a + clause + b, a + b, |a|, clause)
  {
    assert (a + b)[..|a|] == a;
    assert (a + b)[|a|..] == b;
  }

  lemma Split3(a: string, b: string, c: string)
    ensures OccursAt(a + b + c, b, |a|)
    ensures (a + b + c)[..|a|] == a && (a + b + c)[|a| + |b|..] == c
  {
    var s := a + b + c;
    assert s[..|a|] == a;
    assert s[|a|..|a| + |b|] == b;
    assert s[|a| + |b|..] == c;
  }

  /** A clause between `a` and `ending` is an insertion just before the ending. */
  lemma InsertBeforeEnding(r: string, base: string, a: string, clause: string, ending: string)
    requires r == a + clause + ending && base == a + ending
    ensures EndsWith(r, ending) && InsertedAt(r, base, |base| - |ending|, clause)
  {
    AppendEnds(a + clause, ending);
    Insert(a, clause, ending);
  }

  /** A clause between `lead` and `rest` is an insertion just after the lead. */
  lemma InsertAfterLead(r: string, base: string, lead: string, clause: string, rest: string)
    requires r == lead + clause + rest && base == lead + rest
    ensures StartsWith(base, lead) && InsertedAt(r, base, |lead|, clause)
  {
    AppendEnds(lead, rest);
    Insert(lead, clause, rest);
  }

  lemma Assoc3(a: string, b: string, c: string)
    ensures a + b + c == a + (b + c)
  {
  }

  lemma Assoc4(a: string, b: string, c: string, d: string)
    ensures a + b + c + d == a + (b + c + d)
  {
  }

  lemma Regroup4(a: string, b: string, c: string, d: string)
    ensures a + (b + c + d) == a + b + c + d
  {
    Assoc3(b, c, d);
    Assoc3(a, b, c + d);
    Assoc3(a + b, c, d);
  }

  lemma Regroup5(a: string, b: string, c: string, d: string, e: string)
    ensures a + (b + (c + d + e)) == a + b + c + d + e
  {
    Regroup4(b, c, d, e);
    Assoc3(a, b + c + d, e);
    Assoc3(a, b + c, d);
    Assoc3(a, b, c);
  }
}
