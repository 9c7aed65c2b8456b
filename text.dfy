/** String operations of Python's `str` used by the modelled code:
    whitespace, strip, lower, replace, join and slicing. */
module Text {

  /** Python's `str.isspace()` for one code point; the same set is matched by
      `\s` in a `re` pattern over `str` and removed by `str.strip()`. */
  predicate IsSpace(c: char) {
    || c == ' '
    || ('\t' <= c <= '\r')
    || ('\U{1c}' <= c <= '\U{1f}')
    || c == '\U{85}' || c == '\U{a0}' || c == '\U{1680}'
    || ('\U{2000}' <= c <= '\U{200a}')
    || c == '\U{2028}' || c == '\U{2029}' || c == '\U{202f}'
    || c == '\U{205f}' || c == '\U{3000}'
  }

  predicate NoSpace(s: string) {
    forall i :: 0 <= i < |s| ==> !IsSpace(s[i])
  }

  /** `p` occurs in `s` starting at index `i`. */
  predicate OccursAt(p: string, s: string, i: int) {
    0 <= i && i + |p| <= |s| && s[i..i + |p|] == p
  }

  predicate Absent(p: string, s: string) {
    forall i :: 0 <= i <= |s| ==> !OccursAt(p, s, i)
  }

  predicate StartsWith(s: string, p: string) {
    |p| <= |s| && s[..|p|] == p
  }

  /** No character of `a` occurs in `b`. */
  predicate Disjoint(a: string, b: string) {
    forall i :: 0 <= i < |a| ==> a[i] !in b
  }

  // ---------------------------------------------------------------------
  // strip

  /** Past a shared first character, a string that does not start with `q`
      does not start with the rest of `q`. */
  lemma NotStartsWithTail(s: string, q: string)
    requires s != [] && q != [] && s[0] == q[0]
    requires !StartsWith(s, q)
    ensures !StartsWith(s[1..], q[1..])
  {
    if |q| <= |s| {
      assert s[..|q|] == [s[0]] + s[1..][..|q| - 1];
      assert q == [q[0]] + q[1..];
    }
  }

  /** Number of leading whitespace characters. */
  function LeadingSpaces(s: string): (n: nat)
    ensures n <= |s|
    ensures forall j :: 0 <= j < n ==> IsSpace(s[j])
    ensures n == |s| || !IsSpace(s[n])
  {
    if s != [] && IsSpace(s[0]) then 1 + LeadingSpaces(s[1..]) else 0
  }

  /** Number of trailing whitespace characters. */
  function TrailingSpaces(s: string): (n: nat)
    ensures n <= |s|
    ensures forall j :: |s| - n <= j < |s| ==> IsSpace(s[j])
    ensures n == |s| || !IsSpace(s[|s| - n - 1])
  {
    if s != [] && IsSpace(s[|s| - 1]) then 1 + TrailingSpaces(s[..|s| - 1]) else 0
  }

  predicate IsStripped(s: string) {
    s == [] || (!IsSpace(s[0]) && !IsSpace(s[|s| - 1]))
  }

  /** Python's `s.strip()`: the longest slice of `s` that neither starts nor
      ends with whitespace, everything cut off being whitespace. */
  function Strip(s: string): (r: string)
    ensures IsStripped(r)
    ensures LeadingSpaces(s) + |r| <= |s|
    ensures r == s[LeadingSpaces(s)..LeadingSpaces(s) + |r|]
  {
    var t := s[LeadingSpaces(s)..];
    t[..|t| - TrailingSpaces(t)]
  }

  /** What `Strip` cuts off, on either side, is whitespace. */
  lemma StripCutsSpaces(s: string)
    ensures forall j :: 0 <= j < LeadingSpaces(s) ==> IsSpace(s[j])
    ensures forall j :: LeadingSpaces(s) + |Strip(s)| <= j < |s| ==> IsSpace(s[j])
  {
    var t := s[LeadingSpaces(s)..];
    assert forall j :: |t| - TrailingSpaces(t) <= j < |t| ==> IsSpace(t[j]);
  }

  lemma StripStripped(s: string)
    requires IsStripped(s)
    ensures Strip(s) == s
  {
    if s != [] {
      assert LeadingSpaces(s) == 0;
      assert TrailingSpaces(s) == 0;
    }
  }

  // ---------------------------------------------------------------------
  // re.sub(r"\s+", " ", s)

  /** No whitespace other than ' ', and never two whitespace characters in a
      row. */
  predicate Collapsed(s: string) {
    forall i :: 0 <= i < |s| && IsSpace(s[i]) ==> s[i] == ' ' && (i + 1 == |s| || !IsSpace(s[i + 1]))
  }

  /** `re.sub(r"\s+", " ", s)`: every maximal run of whitespace becomes one
      space. */
  function CollapseSpaces(s: string): (r: string)
    ensures Collapsed(r)
    ensures |r| <= |s|
    ensures s == [] <==> r == []
    ensures s != [] ==> r[0] == (if IsSpace(s[0]) then ' ' else s[0])
    decreases |s|
  {
    if s == [] then []
    else if IsSpace(s[0]) then [' '] + CollapseSpaces(s[LeadingSpaces(s)..])
    else [s[0]] + CollapseSpaces(s[1..])
  }

  lemma {:induction false} CollapseKeepsNonPrefix(s: string, q: string)
    requires NoSpace(q)
    requires !StartsWith(s, q)
    ensures !StartsWith(CollapseSpaces(s), q)
    decreases |s|
  {
    var res := CollapseSpaces(s);
    if s != [] && !IsSpace(s[0]) && s[0] == q[0] {
      var rest := CollapseSpaces(s[1..]);
      assert res == [s[0]] + rest;
      NotStartsWithTail(s, q);
      CollapseKeepsNonPrefix(s[1..], q[1..]);
      if |q| <= |res| {
        assert res[..|q|] == [s[0]] + rest[..|q| - 1];
        assert q[1..] != rest[..|q| - 1];
      }
    }
  }

  /** Collapsing whitespace creates no occurrence of a whitespace-free
      pattern. */
  lemma {:induction false} CollapseAbsent(s: string, q: string)
    requires q != [] && NoSpace(q)
    requires Absent(q, s)
    ensures Absent(q, CollapseSpaces(s))
    decreases |s|
  {
    if s != [] {
      var n := if IsSpace(s[0]) then LeadingSpaces(s) else 1;
      var tail := s[n..];
      var rest := CollapseSpaces(tail);
      AbsentSlice(q, s, n, |s|);
      assert s[n..|s|] == tail;
      CollapseAbsent(tail, q);
      assert !OccursAt(q, s, 0);
      if |q| <= |s| {
        assert s[0..|q|] == s[..|q|];
      }
      CollapseKeepsNonPrefix(s, q);
      AbsentAfterChar(CollapseSpaces(s)[0], rest, q);
    }
  }

  /** A collapsed string that starts with whitespace starts with exactly one
      space. */
  lemma CollapsedLeading(s: string)
    requires Collapsed(s) && s != [] && IsSpace(s[0])
    ensures LeadingSpaces(s) == 1
  {
    if |s| > 1 {
      assert !IsSpace(s[1]);
      assert LeadingSpaces(s[1..]) == 0;
    }
  }

  /** Collapsing an already collapsed string changes nothing. */
  lemma {:induction false} CollapseCollapsed(s: string)
    requires Collapsed(s)
    ensures CollapseSpaces(s) == s
    decreases |s|
  {
    if s != [] {
      CollapsedSlice(s, 1, |s|);
      if IsSpace(s[0]) {
        CollapsedLeading(s);
      }
      CollapseCollapsed(s[1..]);
    }
  }

  lemma CollapsedSlice(s: string, a: nat, b: nat)
    requires a <= b <= |s|
    requires Collapsed(s)
    ensures Collapsed(s[a..b])
  {
    forall i | 0 <= i < b - a && IsSpace(s[a..b][i])
      ensures s[a..b][i] == ' ' && (i + 1 == b - a || !IsSpace(s[a..b][i + 1]))
    {
      assert s[a..b][i] == s[a + i];
      if i + 1 < b - a {
        assert s[a..b][i + 1] == s[a + i + 1];
      }
    }
  }

  /** The characters of `s` that are not whitespace, in order. */
  function NonSpaces(s: string): (r: string)
    ensures NoSpace(r)
    ensures |r| <= |s|
  {
    if s == [] then [] else (if IsSpace(s[0]) then [] else [s[0]]) + NonSpaces(s[1..])
  }

  /** Dropping a whitespace prefix loses no non-whitespace character. */
  lemma {:induction false} NonSpacesSkip(s: string, n: nat)
    requires n <= |s|
    requires forall j :: 0 <= j < n ==> IsSpace(s[j])
    ensures NonSpaces(s[n..]) == NonSpaces(s)
    decreases n
  {
    if n > 0 {
      NonSpacesSkip(s[1..], n - 1);
      assert s[1..][n - 1..] == s[n..];
    }
  }

  /** Collapsing whitespace keeps every non-whitespace character, in order,
      and adds none. */
  lemma {:induction false} CollapseKeepsNonSpaces(s: string)
    ensures NonSpaces(CollapseSpaces(s)) == NonSpaces(s)
    decreases |s|
  {
    if s != [] {
      var r := CollapseSpaces(s);
      if IsSpace(s[0]) {
        var n := LeadingSpaces(s);
        CollapseKeepsNonSpaces(s[n..]);
        NonSpacesSkip(s, n);
        assert r[1..] == CollapseSpaces(s[n..]);
      } else {
        CollapseKeepsNonSpaces(s[1..]);
        assert r[1..] == CollapseSpaces(s[1..]);
      }
    }
  }

  /** Leading whitespace of a concatenation: that of `a`, continued into `b`
      when `a` is all whitespace. */
  lemma {:induction false} LeadingSpacesAppend(a: string, b: string)
    ensures LeadingSpaces(a + b) == if LeadingSpaces(a) < |a| then LeadingSpaces(a) else |a| + LeadingSpaces(b)
    decreases |a|
  {
    if a == [] {
      assert a + b == b;
    } else if IsSpace(a[0]) {
      LeadingSpacesAppend(a[1..], b);
      assert (a + b)[1..] == a[1..] + b;
    }
  }

  /** A non-empty run of whitespace collapses to a single space. */
  lemma CollapseRun(w: string)
    requires w != []
    requires forall j :: 0 <= j < |w| ==> IsSpace(w[j])
    ensures CollapseSpaces(w) == " "
  {
    assert LeadingSpaces(w) == |w|;
    assert w[|w|..] == [];
  }

  /** Collapsing works piece by piece wherever the cut does not fall inside
      a run of whitespace. Together with `CollapseRun` this fixes the result
      for every string: its non-whitespace stretches are kept as they are and
      each whitespace run between them becomes one space. */
  lemma {:induction false} CollapseAppend(a: string, b: string)
    requires a == [] || b == [] || !IsSpace(a[|a| - 1]) || !IsSpace(b[0])
    ensures CollapseSpaces(a + b) == CollapseSpaces(a) + CollapseSpaces(b)
    decreases |a|, 1
  {
    if a == [] {
      assert a + b == b;
    } else if b == [] {
      assert a + b == a;
    } else {
      CollapseAppendStep(a, b);
    }
  }

  /** `CollapseAppend` for non-empty parts: the head of `a` is handled
      alone, the rest by induction. */
  lemma {:induction false} CollapseAppendStep(a: string, b: string)
    requires a != [] && b != []
    requires !IsSpace(a[|a| - 1]) || !IsSpace(b[0])
    ensures CollapseSpaces(a + b) == CollapseSpaces(a) + CollapseSpaces(b)
    decreases |a|, 0
  {
    var n := if IsSpace(a[0]) then LeadingSpaces(a) else 1;
    var t := a[n..];
    assert 1 <= n;
    var h := [if IsSpace(a[0]) then ' ' else a[0]];
    CollapseHeadAppend(a, b);
    assert CollapseSpaces(a) == h + CollapseSpaces(t);
    if n < |a| {
      assert t[|t| - 1] == a[|a| - 1];
      CollapseAppend(t, b);
      ConcatShift(CollapseSpaces(a + b), h, CollapseSpaces(t), CollapseSpaces(b));
    } else {
      assert t + b == b;
      assert CollapseSpaces(t) == [];
      assert CollapseSpaces(a) == h;
    }
  }

  lemma ConcatShift(x: string, h: string, t: string, b: string)
    requires x == h + (t + b)
    ensures x == (h + t) + b
  {
  }

  /** The first character or whitespace run of `a` collapses the same way
      whether or not `b` follows, as long as the run does not continue into
      `b`. */
  lemma CollapseHeadAppend(a: string, b: string)
    requires a != [] && b != []
    requires !IsSpace(a[|a| - 1]) || !IsSpace(b[0])
    ensures var n := if IsSpace(a[0]) then LeadingSpaces(a) else 1;
      CollapseSpaces(a + b) == [if IsSpace(a[0]) then ' ' else a[0]] + CollapseSpaces(a[n..] + b)
  {
    var ab := a + b;
    assert ab[0] == a[0];
    if IsSpace(a[0]) {
      LeadingRunAppend(a, b);
      assert ab[LeadingSpaces(a)..] == a[LeadingSpaces(a)..] + b;
    } else {
      assert ab[1..] == a[1..] + b;
    }
  }

  /** The leading whitespace run of `a` does not continue into `b`. */
  lemma LeadingRunAppend(a: string, b: string)
    requires a != [] && b != []
    requires !IsSpace(a[|a| - 1]) || !IsSpace(b[0])
    ensures LeadingSpaces(a + b) == LeadingSpaces(a)
  {
    LeadingSpacesAppend(a, b);
    if LeadingSpaces(a) == |a| {
      assert LeadingSpaces(b) == 0;
    }
  }

  // ---------------------------------------------------------------------
  // lower

  /** `str.lower()` on ASCII letters; other characters are kept. */
  function LowerChar(c: char): char {
    if 'A' <= c <= 'Z' then (c as int + 32) as char else c
  }

  function Lower(s: string): (r: string)
    ensures |r| == |s|
    ensures forall i :: 0 <= i < |s| ==> r[i] == LowerChar(s[i])
  {
    seq(|s|, i requires 0 <= i < |s| => LowerChar(s[i]))
  }

  // ---------------------------------------------------------------------
  // replace

  /** Python's `s.replace(p, r)`: scan left to right, replacing each
      non-overlapping occurrence of `p`. */
  function Replace(s: string, p: string, r: string): (out: string)
    requires p != []
    ensures |p| == |r| ==> |out| == |s|
    decreases |s|
  {
    if s == [] then []
    else if StartsWith(s, p) then r + Replace(s[|p|..], p, r)
    else [s[0]] + Replace(s[1..], p, r)
  }

  /** A replaced string starts with `q` only if the original did, as long as
      `q` shares no character with the non-empty replacement. */
  lemma {:induction false} ReplaceKeepsNonPrefix(s: string, p: string, r: string, q: string)
    requires p != [] && r != []
    requires Disjoint(q, r)
    requires !StartsWith(s, q)
    ensures !StartsWith(Replace(s, p, r), q)
    decreases |s|
  {
    var res := Replace(s, p, r);
    if s == [] {
    } else if StartsWith(s, p) {
      assert res[0] == r[0] && r[0] != q[0];
    } else {
      var rest := Replace(s[1..], p, r);
      assert res == [s[0]] + rest;
      if s[0] == q[0] {
        NotStartsWithTail(s, q);
        ReplaceKeepsNonPrefix(s[1..], p, r, q[1..]);
        if |q| <= |res| {
          assert res[..|q|] == [s[0]] + rest[..|q| - 1];
          assert q[1..] != rest[..|q| - 1];
        }
      }
    }
  }

  /** A pattern absent from `rest` that shares no character with `r` is
      absent from `r + rest`. */
  lemma AbsentAfterReplacement(r: string, rest: string, q: string)
    requires q != [] && Disjoint(q, r) && Absent(q, rest)
    ensures Absent(q, r + rest)
  {
    var res := r + rest;
    forall i | 0 <= i <= |res| ensures !OccursAt(q, res, i) {
      if i < |r| {
        assert res[i] == r[i];
        assert q[0] !in r;
      } else if i + |q| <= |res| {
        assert res[i..i + |q|] == rest[i - |r|..i - |r| + |q|];
        assert !OccursAt(q, rest, i - |r|);
      }
    }
  }

  /** A pattern absent from `rest` is absent from `[c] + rest` unless the
      latter starts with it. */
  lemma AbsentAfterChar(c: char, rest: string, q: string)
    requires Absent(q, rest) && !StartsWith([c] + rest, q)
    ensures Absent(q, [c] + rest)
  {
    var res := [c] + rest;
    forall i | 0 <= i <= |res| ensures !OccursAt(q, res, i) {
      if i == 0 {
        if |q| <= |res| {
          assert res[0..|q|] == res[..|q|];
        }
      } else if i + |q| <= |res| {
        assert res[i..i + |q|] == rest[i - 1..i - 1 + |q|];
        assert !OccursAt(q, rest, i - 1);
      }
    }
  }

  /** After `Replace(s, p, r)` no occurrence of `p` is left, and no pattern
      absent before appears, as long as the replacement is non-empty and shares
      no character with the pattern. */
  lemma {:induction false} ReplaceAbsent(s: string, p: string, r: string, q: string)
    requires p != [] && r != [] && q != []
    requires Disjoint(q, r)
    requires q == p || Absent(q, s)
    ensures Absent(q, Replace(s, p, r))
    decreases |s|
  {
    if s == [] {
    } else if StartsWith(s, p) {
      var tail := s[|p|..];
      if q != p {
        AbsentSlice(q, s, |p|, |s|);
        assert s[|p|..|s|] == tail;
      }
      ReplaceAbsent(tail, p, r, q);
      AbsentAfterReplacement(r, Replace(tail, p, r), q);
    } else {
      var tail := s[1..];
      if q != p {
        AbsentSlice(q, s, 1, |s|);
        assert s[1..|s|] == tail;
        assert !OccursAt(q, s, 0);
      }
      ReplaceAbsent(tail, p, r, q);
      ReplaceKeepsNonPrefix(s, p, r, q);
      AbsentAfterChar(s[0], Replace(tail, p, r), q);
    }
  }

  /** Replacing a pattern that does not occur changes nothing. */
  lemma {:induction false} ReplaceAbsentNoop(s: string, p: string, r: string)
    requires p != []
    requires Absent(p, s)
    ensures Replace(s, p, r) == s
    decreases |s|
  {
    if s != [] {
      assert !OccursAt(p, s, 0);
      if |p| <= |s| {
        assert s[0..|p|] == s[..|p|];
      }
      AbsentSlice(p, s, 1, |s|);
      assert s[1..|s|] == s[1..];
      ReplaceAbsentNoop(s[1..], p, r);
    }
  }

  /** A slice of a string in which `p` is absent has no `p` either. */
  lemma AbsentSlice(p: string, s: string, a: nat, b: nat)
    requires a <= b <= |s|
    requires Absent(p, s)
    ensures Absent(p, s[a..b])
  {
    forall i | 0 <= i <= b - a ensures !OccursAt(p, s[a..b], i) {
      if i + |p| <= b - a {
        assert s[a..b][i..i + |p|] == s[a + i..a + i + |p|] by {
          SliceOfSlice(s, a, b, i, i + |p|);
        }
        assert !OccursAt(p, s, a + i);
      }
    }
  }

  lemma SliceOfSlice(s: string, a: nat, b: nat, i: nat, j: nat)
    requires a <= b <= |s| && i <= j <= b - a
    ensures s[a..b][i..j] == s[a + i..a + j]
  {
    assert forall k :: 0 <= k < j - i ==> s[a..b][i..j][k] == s[a + i + k];
  }

  lemma AbsentChar(c: char, s: string)
    requires Absent([c], s)
    ensures c !in s
  {
    forall i | 0 <= i < |s| ensures s[i] != c {
      assert !OccursAt([c], s, i);
      assert s[i..i + 1] == [s[i]];
    }
  }

  // ---------------------------------------------------------------------
  // join and slicing

  /** Python's `sep.join(parts)`. */
  function Join(parts: seq<string>, sep: string): (r: string)
    ensures |parts| == 0 ==> r == ""
    ensures |parts| == 1 ==> r == parts[0]
  {
    if |parts| == 0 then ""
    else if |parts| == 1 then parts[0]
    else parts[0] + sep + Join(parts[1..], sep)
  }

  /** A join whose first part is non-empty starts with that part's first
      character. */
  lemma JoinStart(parts: seq<string>, sep: string)
    requires parts != [] && parts[0] != []
    ensures Join(parts, sep) != [] && Join(parts, sep)[0] == parts[0][0]
  {
    if |parts| > 1 {
      assert Join(parts, sep) == parts[0] + (sep + Join(parts[1..], sep));
    }
  }

  /** A join whose last part is non-empty ends with that part's last
      character. */
  lemma {:induction false} JoinEnd(parts: seq<string>, sep: string)
    requires parts != [] && parts[|parts| - 1] != []
    ensures var j := Join(parts, sep); var last := parts[|parts| - 1];
      j != [] && j[|j| - 1] == last[|last| - 1]
  {
    if |parts| > 1 {
      var rest := Join(parts[1..], sep);
      assert parts[1..][|parts| - 2] == parts[|parts| - 1];
      JoinEnd(parts[1..], sep);
      assert Join(parts, sep) == (parts[0] + sep) + rest;
    }
  }

  /** Where `parts[i]` starts inside `Join(parts, sep)`. */
  function JoinOffset(parts: seq<string>, sep: string, i: nat): nat
    requires i <= |parts|
  {
    if i == 0 then 0 else |parts[0]| + |sep| + JoinOffset(parts[1..], sep, i - 1)
  }

  /** An occurrence in `b` is an occurrence in `a + b`, shifted by `|a|`. */
  lemma OccursShift(p: string, a: string, b: string, i: nat)
    requires OccursAt(p, b, i)
    ensures OccursAt(p, a + b, |a| + i)
  {
    assert (a + b)[|a| + i..|a| + i + |p|] == b[i..i + |p|];
  }

  /** Every part appears in the joined string, in order, each at the offset
      given by the lengths of the parts and separators before it. */
  lemma {:induction false} JoinPlacesParts(parts: seq<string>, sep: string, i: nat)
    requires i < |parts|
    ensures OccursAt(parts[i], Join(parts, sep), JoinOffset(parts, sep, i))
  {
    var j := Join(parts, sep);
    if |parts| == 1 {
    } else if i == 0 {
      assert j == parts[0] + (sep + Join(parts[1..], sep));
      assert j[..|parts[0]|] == parts[0];
    } else {
      JoinPlacesParts(parts[1..], sep, i - 1);
      OccursShift(parts[i], parts[0] + sep, Join(parts[1..], sep), JoinOffset(parts[1..], sep, i - 1));
    }
  }

  /** Between two consecutive parts the joined string holds exactly `sep`. */
  lemma {:induction false} JoinSeparates(parts: seq<string>, sep: string, i: nat)
    requires i + 1 < |parts|
    ensures OccursAt(sep, Join(parts, sep), JoinOffset(parts, sep, i) + |parts[i]|)
  {
    var j := Join(parts, sep);
    var rest := Join(parts[1..], sep);
    assert j == (parts[0] + sep) + rest;
    if i == 0 {
      assert j[|parts[0]|..|parts[0]| + |sep|] == sep;
    } else {
      JoinSeparates(parts[1..], sep, i - 1);
      OccursShift(sep, parts[0] + sep, rest, JoinOffset(parts[1..], sep, i - 1) + |parts[i]|);
    }
  }

  /** Python's `s[:n]` for `n >= 0`. */
  function Take(s: string, n: nat): (r: string)
    ensures |r| <= n && |r| <= |s|
    ensures StartsWith(s, r)
    ensures |s| <= n ==> r == s
    ensures |s| > n ==> r == s[..n]
  {
    if |s| <= n then s else s[..n]
  }
}
