/** The text helpers of `scripts/prepare_flipkart_dataset.py`: mojibake
    repair, category-path and specification extraction, price and rating
    normalisation, and whitespace cleanup. None of them raises. */
module PrepareHelpers {
  import opened Wrappers
  import opened Text
  import opened PyValue

  // ---------------------------------------------------------------------
  // fix_bad_encoding

  /** One `str.replace(pattern, replacement)` step. */
  datatype Rule = Rule(pattern: string, replacement: string)

  /** The replacements of `fix_bad_encoding`, in the order they are applied.
      The fourth pattern ends in the invisible control character U+009D; the
      fifth and sixth end in the curly quotes U+201C and U+201D. */
  const MojibakeRules: seq<Rule> := [
    Rule("\U{e2}\U{20ac}\U{a2}", "\U{2022}"),
    Rule("\U{e2}\U{20ac}\U{2122}", "'"),
    Rule("\U{e2}\U{20ac}\U{153}", "\""),
    Rule("\U{e2}\U{20ac}\U{9d}", "\""),
    Rule("\U{e2}\U{20ac}\U{201c}", "-"),
    Rule("\U{e2}\U{20ac}\U{201d}", "-"),
    Rule("\U{c2}", " ")
  ]

  /** Patterns and replacements are non-empty, and no replacement shares a
      character with any pattern. */
  predicate RulesOk(rules: seq<Rule>) {
    && (forall i :: 0 <= i < |rules| ==> rules[i].pattern != [] && rules[i].replacement != [])
    && (forall i, j :: 0 <= i < |rules| && 0 <= j < |rules| ==>
          Disjoint(rules[i].pattern, rules[j].replacement))
  }

  /** The rules applied one after another, each to the whole text. */
  function ApplyRules(s: string, rules: seq<Rule>): (r: string)
    requires forall i :: 0 <= i < |rules| ==> rules[i].pattern != []
    decreases |rules|
  {
    if rules == [] then s
    else ApplyRules(Replace(s, rules[0].pattern, rules[0].replacement), rules[1..])
  }

  /** After the chain of replacements none of the patterns is left, nor any
      whitespace-free pattern `q` that was absent and shares no character with
      the replacements. */
  lemma {:induction false} ApplyRulesRemoves(s: string, rules: seq<Rule>, done: seq<string>)
    requires RulesOk(rules)
    requires forall k :: 0 <= k < |done| ==> done[k] != [] && Absent(done[k], s)
    requires forall k, j :: 0 <= k < |done| && 0 <= j < |rules| ==> Disjoint(done[k], rules[j].replacement)
    ensures forall k :: 0 <= k < |done| ==> Absent(done[k], ApplyRules(s, rules))
    ensures forall i :: 0 <= i < |rules| ==> Absent(rules[i].pattern, ApplyRules(s, rules))
    decreases |rules|
  {
    if rules != [] {
      var p, r := rules[0].pattern, rules[0].replacement;
      var s' := Replace(s, p, r);
      forall k | 0 <= k < |done| ensures Absent(done[k], s') {
        ReplaceAbsent(s, p, r, done[k]);
      }
      ReplaceAbsent(s, p, r, p);
      var done' := done + [p];
      assert RulesOk(rules[1..]);
      ApplyRulesRemoves(s', rules[1..], done');
      assert forall k :: 0 <= k < |done| ==> done'[k] == done[k];
      assert done'[|done|] == p;
      forall i | 0 <= i < |rules| ensures Absent(rules[i].pattern, ApplyRules(s, rules)) {
        if i > 0 {
          assert rules[i] == rules[1..][i - 1];
        }
      }
    }
  }

  /** When no pattern occurs, the chain of replacements changes nothing. */
  lemma {:induction false} ApplyRulesNoop(s: string, rules: seq<Rule>)
    requires forall i :: 0 <= i < |rules| ==> rules[i].pattern != [] && Absent(rules[i].pattern, s)
    ensures ApplyRules(s, rules) == s
    decreases |rules|
  {
    if rules != [] {
      ReplaceAbsentNoop(s, rules[0].pattern, rules[0].replacement);
      assert forall i :: 0 <= i < |rules[1..]| ==> rules[1..][i] == rules[i + 1];
      ApplyRulesNoop(s, rules[1..]);
    }
  }

  /** Every pattern character is outside ASCII and not the bullet; every
      replacement character is ASCII or the bullet. */
  lemma MojibakeAlphabets()
    ensures forall i, k :: 0 <= i < |MojibakeRules| && 0 <= k < |MojibakeRules[i].pattern| ==>
      MojibakeRules[i].pattern[k] >= '\U{80}' && MojibakeRules[i].pattern[k] != '\U{2022}'
    ensures forall j, k :: 0 <= j < |MojibakeRules| && 0 <= k < |MojibakeRules[j].replacement| ==>
      MojibakeRules[j].replacement[k] < '\U{80}' || MojibakeRules[j].replacement[k] == '\U{2022}'
  {
  }

  lemma MojibakeRulesOk()
    ensures RulesOk(MojibakeRules)
  {
    MojibakeAlphabets();
    forall i, j | 0 <= i < |MojibakeRules| && 0 <= j < |MojibakeRules|
      ensures Disjoint(MojibakeRules[i].pattern, MojibakeRules[j].replacement)
    {
      var p, r := MojibakeRules[i].pattern, MojibakeRules[j].replacement;
      forall k | 0 <= k < |p| ensures p[k] !in r {
        assert forall m :: 0 <= m < |r| ==> r[m] != p[k];
      }
    }
  }

  /** No mojibake pattern occurs in `s`. */
  predicate FreeOfMojibake(s: string) {
    forall i :: 0 <= i < |MojibakeRules| ==> Absent(MojibakeRules[i].pattern, s)
  }

  /** `fix_bad_encoding` on a string. */
  function FixEncoding(s: string): (r: string)
    ensures FreeOfMojibake(r)
    ensures '\U{c2}' !in r
  {
    MojibakeRulesOk();
    ApplyRulesRemoves(s, MojibakeRules, []);
    var r := ApplyRules(s, MojibakeRules);
    assert MojibakeRules[6].pattern == ['\U{c2}'];
    AbsentChar('\U{c2}', r);
    r
  }

  /** `fix_bad_encoding`: a non-string gives "". */
  function FixBadEncoding(v: Value): (r: string)
    ensures !v.Str? ==> r == ""
    ensures FreeOfMojibake(r) && '\U{c2}' !in r
  {
    if v.Str? then FixEncoding(v.s) else ""
  }

  lemma FixEncodingIdempotent(s: string)
    ensures FixEncoding(FixEncoding(s)) == FixEncoding(s)
  {
    var t := FixEncoding(s);
    ApplyRulesNoop(t, MojibakeRules);
  }

  /** The dash rules are live: the mojibake of an en dash becomes "-". */
  lemma DashRuleApplies()
    ensures FixEncoding("\U{e2}\U{20ac}\U{201c}") == "-"
  {
    var s := "\U{e2}\U{20ac}\U{201c}";
    var rs := MojibakeRules;
    assert Replace(s, rs[0].pattern, rs[0].replacement) == s;
    assert Replace(s, rs[1].pattern, rs[1].replacement) == s;
    assert Replace(s, rs[2].pattern, rs[2].replacement) == s;
    assert Replace(s, rs[3].pattern, rs[3].replacement) == s;
    assert Replace(s, rs[4].pattern, rs[4].replacement) == "-";
    assert Replace("-", rs[5].pattern, rs[5].replacement) == "-";
    assert Replace("-", rs[6].pattern, rs[6].replacement) == "-";
  }

  /** A lone "â€" is not a pattern and survives. */
  lemma BarePrefixSurvives()
    ensures FixEncoding("\U{e2}\U{20ac}") == "\U{e2}\U{20ac}"
  {
    var s := "\U{e2}\U{20ac}";
    forall i | 0 <= i < |MojibakeRules| ensures Absent(MojibakeRules[i].pattern, s) {
      if i == 6 {
        assert s[0] != '\U{c2}' && s[1] != '\U{c2}';
      }
    }
    ApplyRulesNoop(s, MojibakeRules);
  }

  // ---------------------------------------------------------------------
  // clean_text_basic

  /** The mojibake patterns contain no whitespace. */
  lemma MojibakePatternsNoSpace()
    ensures forall i :: 0 <= i < |MojibakeRules| ==> NoSpace(MojibakeRules[i].pattern)
  {
  }

  /** Collapsing and stripping bring back no pattern that was absent, since
      no pattern holds whitespace. */
  lemma CollapseStripKeepsAbsent(f: string, q: string)
    requires q != [] && NoSpace(q) && Absent(q, f)
    ensures Absent(q, Strip(CollapseSpaces(f)))
  {
    var c := CollapseSpaces(f);
    var a := LeadingSpaces(c);
    var r := Strip(c);
    assert r == c[a..a + |r|];
    CollapseAbsent(f, q);
    AbsentSlice(q, c, a, a + |r|);
  }

  /** Collapsing then stripping keeps text free of mojibake. */
  lemma CollapseStripFree(f: string)
    requires FreeOfMojibake(f)
    ensures FreeOfMojibake(Strip(CollapseSpaces(f)))
  {
    MojibakePatternsNoSpace();
    MojibakeRulesOk();
    forall i | 0 <= i < |MojibakeRules| ensures Absent(MojibakeRules[i].pattern, Strip(CollapseSpaces(f))) {
      CollapseStripKeepsAbsent(f, MojibakeRules[i].pattern);
    }
  }

  /** Collapsing then stripping text free of mojibake gives collapsed,
      stripped text still free of it. */
  lemma CollapseStripClean(f: string)
    requires FreeOfMojibake(f)
    ensures var r := Strip(CollapseSpaces(f)); IsStripped(r) && Collapsed(r) && FreeOfMojibake(r)
  {
    var c := CollapseSpaces(f);
    var a := LeadingSpaces(c);
    var r := Strip(c);
    CollapseStripFree(f);
    assert r == c[a..a + |r|];
    CollapsedSlice(c, a, a + |r|);
  }

  /** `clean_text_basic` on a string. */
  function CleanText(s: string): (r: string)
    ensures IsStripped(r) && Collapsed(r)
    ensures FreeOfMojibake(r)
  {
    CollapseStripClean(FixEncoding(s));
    Strip(CollapseSpaces(FixEncoding(s)))
  }

  /** `clean_text_basic`: a non-string gives "". */
  function CleanTextBasic(v: Value): (r: string)
    ensures !v.Str? ==> r == ""
    ensures IsStripped(r) && Collapsed(r)
  {
    if v.Str? then CleanText(v.s) else ""
  }

  /** Text free of mojibake is left alone by `fix_bad_encoding`. */
  lemma FixEncodingFree(t: string)
    requires FreeOfMojibake(t)
    ensures FixEncoding(t) == t
  {
    ApplyRulesNoop(t, MojibakeRules);
  }

  /** Cleaning cleaned text changes nothing. */
  lemma CleanTextIdempotent(s: string)
    ensures CleanText(CleanText(s)) == CleanText(s)
  {
    var t := CleanText(s);
    FixEncodingFree(t);
    CollapseCollapsed(t);
    StripStripped(t);
    calc {
      CleanText(t);
      Strip(CollapseSpaces(FixEncoding(t)));
      Strip(CollapseSpaces(t));
      Strip(t);
      t;
    }
  }

  // ---------------------------------------------------------------------
  // safe_parse_category_tree

  /** `safe_parse_category_tree`: the first element of a list literal, else
      the stripped input; "" for a non-string or blank input. */
  function SafeParseCategoryTree(rt: Runtime, v: Value): (r: string)
    ensures !v.Str? || Strip(v.s) == "" ==> r == ""
    ensures IsStripped(r)
    ensures v.Str? && Strip(v.s) != "" ==>
      match rt.literalEval(Strip(v.s))
      case Some(List(items)) => r == if items != [] then Strip(PyStr(rt, items[0])) else Strip(v.s)
      case _ => r == Strip(v.s)
  {
    if !v.Str? then ""
    else
      var t := Strip(v.s);
      if t == "" then ""
      else match rt.literalEval(t)
        case Some(List(items)) => if |items| > 0 then Strip(PyStr(rt, items[0])) else t
        case _ => t
  }

  // ---------------------------------------------------------------------
  // safe_parse_specifications

  /** The maximum length of the fallback text. */
  const SpecFallbackLimit := 1500

  /** The text one specification item contributes, if any. */
  function ItemText(rt: Runtime, item: Value): (r: Option<string>)
    ensures r.Some? <==> item.Dict? && Truthy(Get(item.entries, "value"))
    ensures r.Some? && Truthy(Get(item.entries, "key")) ==>
      r.value == PyStr(rt, Get(item.entries, "key")) + ": " + PyStr(rt, Get(item.entries, "value"))
    ensures r.Some? && !Truthy(Get(item.entries, "key")) ==>
      r.value == PyStr(rt, Get(item.entries, "value"))
  {
    if !item.Dict? then None
    else
      var k := Get(item.entries, "key");
      var v := Get(item.entries, "value");
      if Truthy(k) && Truthy(v) then Some(PyStr(rt, k) + ": " + PyStr(rt, v))
      else if Truthy(v) then Some(PyStr(rt, v))
      else None
  }

  /** The texts of the items that contribute one, in item order. */
  function SpecParts(rt: Runtime, items: seq<Value>): (parts: seq<string>)
    ensures |parts| <= |items|
  {
    if items == [] then []
    else
      var init := SpecParts(rt, items[..|items| - 1]);
      match ItemText(rt, items[|items| - 1])
      case Some(t) => init + [t]
      case None => init
  }

  lemma {:induction false} SpecPartsAppend(rt: Runtime, a: seq<Value>, b: seq<Value>)
    ensures SpecParts(rt, a + b) == SpecParts(rt, a) + SpecParts(rt, b)
    decreases |b|
  {
    if b == [] {
      assert a + b == a;
    } else {
      var b' := b[..|b| - 1];
      assert (a + b)[..|a + b| - 1] == a + b';
      SpecPartsAppend(rt, a, b');
    }
  }

  /** Every item contributes when each is a dict with a value. */
  lemma {:induction false} SpecPartsAllValued(rt: Runtime, items: seq<Value>)
    requires forall i :: 0 <= i < |items| ==> items[i].Dict? && Truthy(Get(items[i].entries, "value"))
    ensures |SpecParts(rt, items)| == |items|
    ensures forall i :: 0 <= i < |items| ==> SpecParts(rt, items)[i] == ItemText(rt, items[i]).value
  {
    if items != [] {
      SpecPartsAllValued(rt, items[..|items| - 1]);
    }
  }

  /** No item contributes when none is a dict with a value. */
  lemma {:induction false} SpecPartsNoneValued(rt: Runtime, items: seq<Value>)
    requires forall i :: 0 <= i < |items| ==> !(items[i].Dict? && Truthy(Get(items[i].entries, "value")))
    ensures SpecParts(rt, items) == []
  {
    if items != [] {
      SpecPartsNoneValued(rt, items[..|items| - 1]);
    }
  }

  /** The input after strip and "=>" -> ":". */
  function SpecSource(s: string): string {
    Replace(Strip(s), "=>", ":")
  }

  /** What `orjson.loads` is given: single quotes turned into double ones. */
  function SpecJson(s: string): string {
    Replace(SpecSource(s), "'", "\"")
  }

  /** The specification list, when the parsed object has one. */
  function SpecList(rt: Runtime, s: string): Option<seq<Value>> {
    match rt.orjsonLoads(SpecJson(s))
    case Some(Dict(m)) => (match Get(m, "product_specification") case List(items) => Some(items) case _ => None)
    case _ => None
  }

  /** `safe_parse_specifications`. */
  function SpecText(rt: Runtime, v: Value): (r: string)
    ensures !v.Str? || Strip(v.s) == "" ==> r == ""
  {
    if !v.Str? || Strip(v.s) == "" then ""
    else match SpecList(rt, v.s)
      case Some(items) => Strip(Join(SpecParts(rt, items), " | "))
      case None => Take(SpecSource(v.s), SpecFallbackLimit)
  }

  /** When a `product_specification` list parses, the result is the item
      texts joined by " | ", stripped. */
  lemma SpecParsed(rt: Runtime, v: Value, items: seq<Value>)
    requires v.Str? && Strip(v.s) != ""
    requires SpecList(rt, v.s) == Some(items)
    ensures SpecText(rt, v) == Strip(Join(SpecParts(rt, items), " | "))
    ensures IsStripped(SpecText(rt, v))
  {
  }

  /** On a parse failure or an unexpected shape the result is the cleaned
      input cut to 1500 characters, with no "=>" left in it. */
  lemma SpecFallback(rt: Runtime, v: Value)
    requires v.Str? && Strip(v.s) != ""
    requires SpecList(rt, v.s).None?
    ensures SpecText(rt, v) == Take(SpecSource(v.s), SpecFallbackLimit)
    ensures |SpecText(rt, v)| <= SpecFallbackLimit
    ensures Absent("=>", SpecText(rt, v))
  {
    var src := SpecSource(v.s);
    ReplaceAbsent(Strip(v.s), "=>", ":", "=>");
    AbsentSlice("=>", src, 0, |Take(src, SpecFallbackLimit)|);
    assert src[0..|Take(src, SpecFallbackLimit)|] == Take(src, SpecFallbackLimit);
  }

  /** The loop of `safe_parse_specifications` over the specification list:
      append the text of each item to `parts`. */
  method CollectSpecParts(rt: Runtime, items: seq<Value>) returns (parts: seq<string>)
    ensures parts == SpecParts(rt, items)
  {
    parts := [];
    for i := 0 to |items|
      invariant parts == SpecParts(rt, items[..i])
    {
      assert items[..i + 1][..i] == items[..i];
      var item := items[i];
      if !item.Dict? {
        continue;
      }
      var k := Get(item.entries, "key");
      var val := Get(item.entries, "value");
      if Truthy(k) && Truthy(val) {
        parts := parts + [PyStr(rt, k) + ": " + PyStr(rt, val)];
      } else if Truthy(val) {
        parts := parts + [PyStr(rt, val)];
      }
    }
    assert items[..|items|] == items;
  }

  /** `safe_parse_specifications`, as the source computes it. */
  method SafeParseSpecifications(rt: Runtime, v: Value) returns (r: string)
    ensures r == SpecText(rt, v)
  {
    if !v.Str? {
      return "";
    }
    var s := Strip(v.s);
    if s == "" {
      return "";
    }
    s := Replace(s, "=>", ":");
    var s2 := Replace(s, "'", "\"");
    var obj := rt.orjsonLoads(s2);
    if obj.Some? && obj.value.Dict? {
      var ps := Get(obj.value.entries, "product_specification");
      if ps.List? {
        var parts := CollectSpecParts(rt, ps.items);
        return Strip(Join(parts, " | "));
      }
    }
    return Take(s, SpecFallbackLimit);
  }

  // ---------------------------------------------------------------------
  // normalize_price, normalize_rating

  /** The texts `normalize_price` maps to None, after strip and lower. */
  const PriceSentinels: set<string> := {"", "nan", "none"}

  /** The texts `normalize_rating` maps to None, after strip and lower. */
  const RatingSentinels: set<string> := {"no rating available", "", "nan", "none"}

  /** `str(x).strip().lower()`. */
  function CellKey(rt: Runtime, x: Value): string {
    Lower(Strip(PyStr(rt, x)))
  }

  /** `normalize_price`: None for a missing value, a sentinel text or an
      unparsable text; otherwise the float the stripped text parses to. */
  function NormalizePrice(rt: Runtime, x: Value): (r: Option<Float>)
    ensures IsNa(x) ==> r.None?
    ensures !IsNa(x) && CellKey(rt, x) in PriceSentinels ==> r.None?
    ensures r.Some? ==> r == rt.parseFloat(Strip(PyStr(rt, x)))
    ensures !IsNa(x) && CellKey(rt, x) !in PriceSentinels ==> r == rt.parseFloat(Strip(PyStr(rt, x)))
  {
    if IsNa(x) then None
    else
      var t := Strip(PyStr(rt, x));
      if Lower(t) in PriceSentinels then None else rt.parseFloat(t)
  }

  /** `normalize_rating`: as `normalize_price`, with one more sentinel. */
  function NormalizeRating(rt: Runtime, x: Value): (r: Option<Float>)
    ensures IsNa(x) ==> r.None?
    ensures !IsNa(x) && CellKey(rt, x) in RatingSentinels ==> r.None?
    ensures r.Some? ==> r == rt.parseFloat(Strip(PyStr(rt, x)))
  {
    if IsNa(x) then None
    else
      var t := Strip(PyStr(rt, x));
      if Lower(t) in RatingSentinels then None else rt.parseFloat(t)
  }

  /** The two normalisers differ only on "no rating available". */
  lemma RatingRefinesPrice(rt: Runtime, x: Value)
    ensures NormalizeRating(rt, x) ==
      if !IsNa(x) && CellKey(rt, x) == "no rating available" then None else NormalizePrice(rt, x)
  {
  }

  /** `normalize_rating` gives None wherever `normalize_price` does. */
  lemma RatingNoneWherePriceNone(rt: Runtime, x: Value)
    requires NormalizePrice(rt, x).None?
    ensures NormalizeRating(rt, x).None?
  {
  }
}
