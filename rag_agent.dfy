/** `flipkart/rag_agent.py`, `flipkart_retriever_tool`: the tool the chat
    agent calls, which turns the documents the retriever returns for a query
    into HTML product cards. The retriever itself is not modelled: the tool is
    a function of the documents it returned. */
module RagAgent {
  import opened Wrappers
  import opened Text
  import opened PyValue
  import opened DataConverter
  import opened Sequences

  /** The answer when the retriever returns no document. */
  const Clarification: string :=
    ClarificationHead
    + "Can you tell me:\n- your budget range, and\n- what you\U{2019}ll use it for?\n\n"
    + "For example, I can recommend:\n"
    + "\U{2022} Office chairs  \n\U{2022} Gaming chairs  \n\U{2022} Ergonomic chairs\n"

  const ClarificationHead: string := "\nI couldn\U{2019}t find an exact match for that.\n\n"

  /** `d.metadata or {}`. */
  function Meta(d: Document): map<string, Value> {
    match d.metadata
    case Some(m) => m
    case None => map[]
  }

  // ---------------------------------------------------------------------
  // ratings and prices

  /** `float(x)` succeeds and gives a finite number. */
  predicate FiniteFloat(rt: Runtime, x: Value) {
    ToFloat(rt, x).Some? && ToFloat(rt, x).value.Finite?
  }

  /** `safe_rating`: missing values and any text reading "nan" become "N/A";
      a value `float()` accepts is shown rounded to one decimal; one it
      rejects is shown as `str(x)`. */
  function SafeRating(rt: Runtime, x: Value): (r: string)
    ensures r == "N/A" <==>
      || x.Null?
      || Lower(PyStr(rt, x)) == "nan"
      || (ToFloat(rt, x).None? && PyStr(rt, x) == "N/A")
      || (ToFloat(rt, x).Some? && FloatStr(rt, Round1(rt, ToFloat(rt, x).value)) == "N/A")
    ensures IsNa(x) ==> r == "N/A"
    ensures !x.Null? && Lower(PyStr(rt, x)) == "nan" ==> r == "N/A"
    ensures !x.Null? && Lower(PyStr(rt, x)) != "nan" && ToFloat(rt, x).Some? ==>
      r == FloatStr(rt, Round1(rt, ToFloat(rt, x).value))
    ensures !x.Null? && Lower(PyStr(rt, x)) != "nan" && ToFloat(rt, x).None? ==> r == PyStr(rt, x)
  {
    if x.Null? then "N/A"
    else if Lower(PyStr(rt, x)) == "nan" then "N/A"
    else
      match ToFloat(rt, x)
      case Some(f) => FloatStr(rt, Round1(rt, f))
      case None => PyStr(rt, x)
  }

  /** `safe_price`: "N/A" exactly for None, for a value whose text reads
      "nan", and for a value that is not a finite number but whose own text
      is "N/A"; a finite number is shown as the integer text of its
      truncation, which reads back as that integer; anything else as
      `str(x)`. */
  function SafePrice(rt: Runtime, x: Value): (r: string)
    ensures r == "N/A" <==>
      x.Null? || Lower(PyStr(rt, x)) == "nan" || (PyStr(rt, x) == "N/A" && !FiniteFloat(rt, x))
    ensures !x.Null? && Lower(PyStr(rt, x)) != "nan" && FiniteFloat(rt, x) ==>
      IsIntegerText(r) && IntegerValue(r) == Trunc(ToFloat(rt, x).value.r)
    ensures !FiniteFloat(rt, x) ==> r == "N/A" || r == PyStr(rt, x)
  {
    if x.Null? then "N/A"
    else if Lower(PyStr(rt, x)) == "nan" then "N/A"
    else
      match ToFloat(rt, x)
      case Some(Finite(v)) =>
        IntToStringValue(Trunc(v));
        IntToString(Trunc(v))
      case _ => PyStr(rt, x)
  }

  /** A price cell as the converter leaves it, when the file held a number:
      shown as "N/A" or as the integer text of the truncated number. */
  lemma CleanedPriceShown(rt: Runtime, v: Value)
    requires v.Num?
    ensures var r := SafePrice(rt, CleanValue(v));
      r == "N/A" || (v.x.Finite? && IsIntegerText(r) && IntegerValue(r) == Trunc(v.x.r))
  {
    if v.x.Finite? {
      assert CleanValue(v) == v;
      assert ToFloat(rt, v) == Some(v.x);
    }
  }

  // ---------------------------------------------------------------------
  // image and review

  /** The text of `first_image`: the first element of a JSON list stored as
      text, the text itself when it is not a list, "" otherwise. */
  function FirstImage(rt: Runtime, image: Value): (r: string)
    ensures !image.Str? ==> r == ""
    ensures image.Str? && !StartsWith(Strip(image.s), "[") ==> r == image.s
    ensures image.Str? && StartsWith(Strip(image.s), "[") ==>
      match rt.jsonLoads(image.s)
      case Some(List(items)) => (if items == [] then r == "" else r == PyStr(rt, items[0]))
      case _ => r == ""
  {
    if image.Str? && StartsWith(Strip(image.s), "[") then
      match rt.jsonLoads(image.s)
      case Some(List(items)) => if |items| > 0 then PyStr(rt, items[0]) else ""
      case _ => ""
    else if image.Str? then image.s
    else ""
  }

  /** The review snippet: the page content on one line (newlines become
      spaces), stripped, and cut to 220 characters followed by "..." when
      longer. */
  function ReviewSnippet(content: string): (r: string)
    ensures '\n' !in r
    ensures |r| <= 223
    ensures var t := Strip(Replace(content, "\n", " "));
      && (|t| <= 220 ==> r == t && IsStripped(r))
      && (|t| > 220 ==> |r| == 223 && r[..220] == t[..220] && r[220..] == "...")
  {
    var line := Replace(content, "\n", " ");
    var t := Strip(line);
    NoNewlineLeft(content);
    if |t| > 220 then t[..220] + "..." else t
  }

  /** After the replacement and the strip no newline is left. */
  lemma NoNewlineLeft(content: string)
    ensures '\n' !in Strip(Replace(content, "\n", " "))
  {
    var line := Replace(content, "\n", " ");
    ReplaceAbsent(content, "\n", " ", "\n");
    var a := LeadingSpaces(line);
    var t := Strip(line);
    AbsentSlice("\n", line, a, a + |t|);
    AbsentChar('\n', t);
  }

  // ---------------------------------------------------------------------
  // the card

  /** The texts interpolated into one card, in template order. */
  datatype Card = Card(
    image: string,
    title: string,
    brand: string,
    productRating: string,
    overallRating: string,
    discountedPrice: string,
    retailPrice: string,
    review: string,
    url: string)

  /** The fields of the card for one document. A falsy name, brand or URL
      falls back to "Unknown Product", "N/A" and "" respectively. */
  function CardOf(rt: Runtime, d: Document): (c: Card)
    ensures var name := Get(Meta(d), "product_name");
      && (!Truthy(name) ==> c.title == "Unknown Product")
      && (name.Str? && name.s != "" ==> c.title == name.s)
    ensures var brand := Get(Meta(d), "brand");
      && (!Truthy(brand) ==> c.brand == "N/A")
      && (brand.Str? && brand.s != "" ==> c.brand == brand.s)
    ensures var url := Get(Meta(d), "product_url");
      && (!Truthy(url) ==> c.url == "")
      && (url.Str? ==> c.url == url.s)
    ensures c.image == FirstImage(rt, Or(Get(Meta(d), "image"), Str("")))
    ensures c.productRating == SafeRating(rt, Get(Meta(d), "product_rating"))
    ensures c.overallRating == SafeRating(rt, Get(Meta(d), "overall_rating"))
    ensures c.discountedPrice == SafePrice(rt, Get(Meta(d), "discounted_price"))
    ensures c.retailPrice == SafePrice(rt, Get(Meta(d), "retail_price"))
    ensures c.review == ReviewSnippet(d.pageContent)
  {
    var m := Meta(d);
    Card(
      FirstImage(rt, Or(Get(m, "image"), Str(""))),
      PyStr(rt, Or(Get(m, "product_name"), Str("Unknown Product"))),
      PyStr(rt, Or(Get(m, "brand"), Str("N/A"))),
      SafeRating(rt, Get(m, "product_rating")),
      SafeRating(rt, Get(m, "overall_rating")),
      SafePrice(rt, Get(m, "discounted_price")),
      SafePrice(rt, Get(m, "retail_price")),
      ReviewSnippet(d.pageContent),
      PyStr(rt, Or(Get(m, "product_url"), Str(""))))
  }

  // The fixed text of the card template around each interpolated field.
  const CardDiv: string := "\n<div class=\"fk-card\">"
  const CardOpen: string := CardDiv + "\n  <img class=\"fk-img\" src=\""
  const BeforeTitle: string :=
    "\" onerror=\"this.style.display='none'\"/>\n  <div class=\"fk-info\">\n    <div class=\"fk-title\">"
  const BeforeBrand: string := "</div>\n\n    <div class=\"fk-meta\"><b>Brand:</b> "
  const BeforeProductRating: string := "</div>\n    <div class=\"fk-meta\"><b>Product Rating:</b> "
  const BeforeOverallRating: string := "</div>\n    <div class=\"fk-meta\"><b>Overall Rating:</b> "
  const BeforeDiscounted: string :=
    "</div>\n\n    <div class=\"fk-price\">\n      <span class=\"fk-price-new\">\U{20b9}"
  const BeforeRetail: string := "</span>\n      <span class=\"fk-price-old\">\U{20b9}"
  const BeforeReview: string := "</span>\n    </div>\n\n    <div class=\"fk-meta\"><b>Review:</b> "
  const BeforeUrl: string := "</div>\n\n    <a class=\"fk-btn\" href=\""
  const CardClose: string :=
    "\" target=\"_blank\" rel=\"noopener noreferrer\">\n      View on Flipkart\n    </a>\n  </div>\n</div>\n"

  /** The template's fixed pieces: one before each field and one after the
      last. */
  const CardTemplate: seq<string> := [
    CardOpen, BeforeTitle, BeforeBrand, BeforeProductRating, BeforeOverallRating,
    BeforeDiscounted, BeforeRetail, BeforeReview, BeforeUrl, CardClose
  ]

  function Fields(c: Card): seq<string> {
    [c.image, c.title, c.brand, c.productRating, c.overallRating,
     c.discountedPrice, c.retailPrice, c.review, c.url]
  }

  /** An f-string: the fixed pieces with the fields between them. */
  function Fill(pieces: seq<string>, fields: seq<string>): (r: string)
    requires |pieces| == |fields| + 1
    ensures StartsWith(r, pieces[0])
    decreases |fields|
  {
    if fields == [] then pieces[0]
    else pieces[0] + fields[0] + Fill(pieces[1..], fields[1..])
  }

  /** Where `fields[i]` starts in `Fill(pieces, fields)`. */
  function FillOffset(pieces: seq<string>, fields: seq<string>, i: nat): nat
    requires |pieces| == |fields| + 1 && i < |fields|
    decreases i
  {
    if i == 0 then |pieces[0]|
    else |pieces[0]| + |fields[0]| + FillOffset(pieces[1..], fields[1..], i - 1)
  }

  /** Each field appears in the filled template at its offset, right after
      the piece that precedes it. */
  lemma {:induction false} FillPlacesFields(pieces: seq<string>, fields: seq<string>, i: nat)
    requires |pieces| == |fields| + 1 && i < |fields|
    ensures OccursAt(pieces[i] + fields[i], Fill(pieces, fields), FillOffset(pieces, fields, i) - |pieces[i]|)
    decreases i
  {
    var r := Fill(pieces, fields);
    var rest := Fill(pieces[1..], fields[1..]);
    assert r == pieces[0] + fields[0] + rest;
    if i == 0 {
      assert r[..|pieces[0]| + |fields[0]|] == pieces[0] + fields[0];
    } else {
      FillPlacesFields(pieces[1..], fields[1..], i - 1);
      var k := |pieces[0]| + |fields[0]|;
      var off := FillOffset(pieces[1..], fields[1..], i - 1) - |pieces[i]|;
      var p := pieces[i] + fields[i];
      assert r[k + off..k + off + |p|] == rest[off..off + |p|];
    }
  }

  /** The card's HTML, as the f-string renders it. */
  function Render(c: Card): (r: string)
    ensures StartsWith(r, CardOpen)
  {
    Fill(CardTemplate, Fields(c))
  }

  /** Every field of the card appears in its HTML right after its label
      (the image after `src="`, the title after the title `div`, the review
      after "<b>Review:</b> ", the URL after `href="`, ...). */
  lemma RenderPlacesFields(c: Card, i: nat)
    requires i < 9
    ensures OccursAt(CardTemplate[i] + Fields(c)[i], Render(c), FillOffset(CardTemplate, Fields(c), i) - |CardTemplate[i]|)
  {
    FillPlacesFields(CardTemplate, Fields(c), i);
  }

  // ---------------------------------------------------------------------
  // the tool

  /** The card built for one document. */
  function CardFor(rt: Runtime): Document -> string {
    d => Render(CardOf(rt, d))
  }

  /** The cards of the documents, in retrieval order. */
  function Cards(rt: Runtime, docs: seq<Document>): (cards: seq<string>)
    ensures |cards| == |docs|
  {
    Map(docs, CardFor(rt))
  }

  /** What the tool answers for the retrieved documents. */
  function ToolOutput(rt: Runtime, docs: seq<Document>): (r: string)
    ensures docs == [] ==> r == Clarification
  {
    if docs == [] then Clarification else Join(Cards(rt, docs), "\n")
  }

  /** `flipkart_retriever_tool`: the clarification for no document, else the
      cards built one per document and joined with newlines. */
  method RetrieverTool(rt: Runtime, docs: seq<Document>) returns (answer: string)
    ensures answer == ToolOutput(rt, docs)
  {
    if |docs| == 0 {
      return Clarification;
    }
    var formatted: seq<string> := [];
    for i := 0 to |docs|
      invariant formatted == Cards(rt, docs[..i])
    {
      var card := CardFor(rt)(docs[i]);
      MapAppend(docs[..i], docs[i], CardFor(rt));
      assert docs[..i + 1] == docs[..i] + [docs[i]];
      formatted := formatted + [card];
    }
    assert docs[..|docs|] == docs;
    answer := Join(formatted, "\n");
  }

  /** With at least one document the answer opens with the first card's
      `div`. */
  lemma AnswerOpensWithCard(rt: Runtime, docs: seq<Document>)
    requires docs != []
    ensures StartsWith(ToolOutput(rt, docs), CardOpen)
  {
    var cards := Cards(rt, docs);
    var out := ToolOutput(rt, docs);
    JoinPlacesParts(cards, "\n", 0);
    assert out[..|cards[0]|] == cards[0];
    assert StartsWith(cards[0], CardOpen);
    assert out[..|CardOpen|] == cards[0][..|CardOpen|];
  }

  /** The card starts "\n<", the clarification "\nI". */
  lemma OpeningsDiffer()
    ensures |CardOpen| > 1 && |Clarification| > 1
    ensures CardOpen[1] == '<' && Clarification[1] == 'I'
  {
    assert CardOpen[1] == CardDiv[1];
    assert Clarification[1] == ClarificationHead[1];
  }

  /** The answer is the clarification exactly when nothing was retrieved. */
  lemma ClarificationIffNoDocuments(rt: Runtime, docs: seq<Document>)
    ensures ToolOutput(rt, docs) == Clarification <==> docs == []
  {
    if docs != [] {
      var out := ToolOutput(rt, docs);
      AnswerOpensWithCard(rt, docs);
      OpeningsDiffer();
      assert out[1] == CardOpen[1];
      assert out[1] != Clarification[1];
    }
  }

  /** Every document's card appears in the answer, in order, at the offset
      given by the cards before it. */
  lemma AnswerPlacesCards(rt: Runtime, docs: seq<Document>, i: nat)
    requires i < |docs|
    ensures OccursAt(Render(CardOf(rt, docs[i])), ToolOutput(rt, docs), JoinOffset(Cards(rt, docs), "\n", i))
  {
    JoinPlacesParts(Cards(rt, docs), "\n", i);
  }

  /** Consecutive cards are separated by a newline. */
  lemma AnswerSeparatesCards(rt: Runtime, docs: seq<Document>, i: nat)
    requires i + 1 < |docs|
    ensures OccursAt("\n", ToolOutput(rt, docs), JoinOffset(Cards(rt, docs), "\n", i) + |Cards(rt, docs)[i]|)
  {
    JoinSeparates(Cards(rt, docs), "\n", i);
  }
}
