/**
  The LLM scraper's two in-memory projections of its records: the flattened CSV rows of
  `save_to_csv` and the training examples of `create_llm_training_format`. Writing the file
  is left out; the rows and examples are what would be written, in order.
 */
module Export {
  import opened Wrappers
  import opened Text
  import Extract

  datatype Faq = Faq(question: string, answer: string)

  /** One record of `scrape_page`, as `save_to_csv` and `create_llm_training_format` read it.
      `headings` maps `'h1'`…`'h6'` to the heading texts; `productInfo` lists the entries of
      the product-info dictionary in insertion order. */
  datatype Record = Record(
    url: string,
    timestamp: string,
    title: string,
    metaDescription: string,
    mainContent: string,
    cleanText: string,
    headings: map<string, seq<string>>,
    links: seq<Extract.Link>,
    faqs: seq<Faq>,
    productInfo: seq<(string, string)>)

  // ---------------------------------------------------------------- CSV rows

  datatype Row = Row(
    url: string,
    timestamp: string,
    title: string,
    metaDescription: string,
    mainContent: string,
    cleanText: string,
    h1Headings: string,
    h2Headings: string,
    faqCount: nat,
    linksCount: nat)

  const HeadingSeparator: string := "; "

  /** `item['headings'].get(level, [])`. */
  function HeadingsAt(rec: Record, level: string): seq<string> {
    if level in rec.headings then rec.headings[level] else []
  }

  function Flatten(rec: Record): Row {
    Row(rec.url, rec.timestamp, rec.title, rec.metaDescription, rec.mainContent, rec.cleanText,
        Join(HeadingSeparator, HeadingsAt(rec, "h1")),
        Join(HeadingSeparator, HeadingsAt(rec, "h2")),
        |rec.faqs|, |rec.links|)
  }

  /** `save_to_csv`: no table at all for an empty store, else one row per record in order. */
  function CsvRows(data: seq<Record>): (r: Option<seq<Row>>)
    ensures r.None? <==> |data| == 0
    ensures r.Some? ==> |r.value| == |data|
    ensures r.Some? ==> forall k :: 0 <= k < |data| ==>
              && r.value[k].url == data[k].url && r.value[k].timestamp == data[k].timestamp
              && r.value[k].title == data[k].title && r.value[k].metaDescription == data[k].metaDescription
              && r.value[k].mainContent == data[k].mainContent && r.value[k].cleanText == data[k].cleanText
              && r.value[k].faqCount == |data[k].faqs| && r.value[k].linksCount == |data[k].links|
  {
    if |data| == 0 then None
    else Some(seq(|data|, k requires 0 <= k < |data| => Flatten(data[k])))
  }

  /** The heading columns can be read back: splitting a column at `"; "` gives the record's
      headings of that level, provided there is at least one and none contains `"; "`. */
  lemma HeadingColumnRoundTrip(data: seq<Record>, k: nat, level: string)
    requires k < |data| && level in {"h1", "h2"}
    requires |HeadingsAt(data[k], level)| > 0
    requires forall i :: 0 <= i < |HeadingsAt(data[k], level)| ==> !Contains(HeadingsAt(data[k], level)[i], HeadingSeparator)
    ensures var row := CsvRows(data).value[k];
            Split(if level == "h1" then row.h1Headings else row.h2Headings, HeadingSeparator) == HeadingsAt(data[k], level)
  {
    assert HeadingSeparator[1..][0] == ' ' && HeadingSeparator[..1][0] == ';';
    SplitJoin(HeadingsAt(data[k], level), HeadingSeparator);
  }

  /** A heading column is empty exactly when the record has no headings of that level (the
      key is missing or its list is empty) or only one, itself empty. */
  lemma NoHeadingsEmptyColumn(data: seq<Record>, k: nat, level: string)
    requires k < |data| && level in {"h1", "h2"}
    ensures var row := CsvRows(data).value[k];
            var column := if level == "h1" then row.h1Headings else row.h2Headings;
            column == "" <==> HeadingsAt(data[k], level) == [] || HeadingsAt(data[k], level) == [""]
    ensures level !in data[k].headings || data[k].headings[level] == [] ==>
              (if level == "h1" then CsvRows(data).value[k].h1Headings else CsvRows(data).value[k].h2Headings) == ""
  {
    var hs := HeadingsAt(data[k], level);
    if |hs| > 1 {
      assert |Join(HeadingSeparator, hs)| >= |HeadingSeparator|;
    }
  }

  // ---------------------------------------------------------------- training examples

  datatype Kind = FaqExample | PageSummary | ProductInfo

  datatype Example = Example(input: string, output: string, sourceUrl: string, kind: Kind)

  const SummaryLimit: nat := 500

  /** The summary output: the main content, cut to its first 500 characters plus `"..."`
      when it is longer. */
  function Summarize(main: string): (r: string)
    ensures |r| <= SummaryLimit + 3
    ensures |main| <= SummaryLimit ==> r == main
    ensures |main| > SummaryLimit ==> |r| == SummaryLimit + 3 && EndsWith(r, "...")
    ensures StartsWith(main, r[..if |main| <= SummaryLimit then |main| else SummaryLimit])
  {
    if |main| > SummaryLimit then main[..SummaryLimit] + "..." else main
  }

  /** The summary leaves the text unchanged when it is short enough, and also when it is
      exactly 503 characters ending in `"..."`: it was cut, but the output alone does not tell. */
  lemma SummarizeAmbiguous(main: string)
    ensures Summarize(main) == main <==>
              |main| <= SummaryLimit || (|main| == SummaryLimit + 3 && EndsWith(main, "..."))
  {
    if |main| == SummaryLimit + 3 && EndsWith(main, "...") {
      assert main == main[..SummaryLimit] + main[SummaryLimit..];
    }
  }

  function SummaryQuestion(title: string): string {
    "What can you tell me about " + title + "?"
  }

  function ProductQuestion(key: string): string {
    "Tell me about the " + key + " of this product/service"
  }

  function FaqExamples(rec: Record): (r: seq<Example>)
    ensures |r| == |rec.faqs|
    ensures forall k :: 0 <= k < |r| ==>
              r[k] == Example(rec.faqs[k].question, rec.faqs[k].answer, rec.url, FaqExample)
  {
    seq(|rec.faqs|, k requires 0 <= k < |rec.faqs| => Example(rec.faqs[k].question, rec.faqs[k].answer, rec.url, FaqExample))
  }

  /** One summary example when both the title and the main content are non-empty. */
  function SummaryExamples(rec: Record): seq<Example> {
    if rec.title != "" && rec.mainContent != "" then
      [Example(SummaryQuestion(rec.title), Summarize(rec.mainContent), rec.url, PageSummary)]
    else []
  }

  /** One example per product-info entry whose value is non-empty, in entry order. */
  function ProductExamples(url: string, info: seq<(string, string)>): (r: seq<Example>)
    ensures |r| <= |info|
    ensures forall k :: 0 <= k < |r| ==> r[k].kind == ProductInfo && r[k].sourceUrl == url && r[k].output != ""
  {
    if |info| == 0 then []
    else
      var (key, value) := info[0];
      var rest := ProductExamples(url, info[1..]);
      if value != "" then [Example(ProductQuestion(key), value, url, ProductInfo)] + rest else rest
  }

  /** The examples one record contributes: its FAQ pairs, then its summary, then its
      product information. */
  function PageExamples(rec: Record): seq<Example> {
    FaqExamples(rec) + SummaryExamples(rec) + ProductExamples(rec.url, rec.productInfo)
  }

  /** `create_llm_training_format`: every record's examples, records in order. */
  function TrainingData(data: seq<Record>): seq<Example> {
    if |data| == 0 then [] else PageExamples(data[0]) + TrainingData(data[1..])
  }

  /** How many product-info values are non-empty. */
  function Filled(info: seq<(string, string)>): (n: nat)
    ensures n <= |info|
  {
    if |info| == 0 then 0 else (if info[0].1 != "" then 1 else 0) + Filled(info[1..])
  }

  /** A product example exists exactly for each entry with a non-empty value, and there is
      one per such entry. */
  lemma {:induction false} ProductExamplesAre(url: string, info: seq<(string, string)>, key: string, value: string)
    ensures |ProductExamples(url, info)| == Filled(info)
    ensures Example(ProductQuestion(key), value, url, ProductInfo) in ProductExamples(url, info) <==>
              value != "" && exists i :: 0 <= i < |info| && ProductQuestion(info[i].0) == ProductQuestion(key) && info[i].1 == value
    decreases |info|
  {
    if |info| > 0 {
      var tail := info[1..];
      ProductExamplesAre(url, tail, key, value);
      if exists i :: 0 <= i < |tail| && ProductQuestion(tail[i].0) == ProductQuestion(key) && tail[i].1 == value {
        var i :| 0 <= i < |tail| && ProductQuestion(tail[i].0) == ProductQuestion(key) && tail[i].1 == value;
        assert info[i + 1] == tail[i];
      }
      if exists i :: 0 <= i < |info| && ProductQuestion(info[i].0) == ProductQuestion(key) && info[i].1 == value {
        var i :| 0 <= i < |info| && ProductQuestion(info[i].0) == ProductQuestion(key) && info[i].1 == value;
        if i > 0 {
          assert tail[i - 1] == info[i];
        }
      }
    }
  }

  function KindRank(k: Kind): nat {
    match k
    case FaqExample => 0
    case PageSummary => 1
    case ProductInfo => 2
  }

  /** Per record: |faq_content| examples, plus one when title and main content are both
      non-empty, plus one per non-empty product value; all carry the record's URL, FAQ
      examples come first and product examples last, and the summary example says exactly
      what the source's format strings say. */
  lemma PageExamplesShape(rec: Record)
    ensures |PageExamples(rec)| ==
              |rec.faqs| + (if rec.title != "" && rec.mainContent != "" then 1 else 0) + Filled(rec.productInfo)
    ensures forall k :: 0 <= k < |PageExamples(rec)| ==> PageExamples(rec)[k].sourceUrl == rec.url
    ensures forall i, j :: 0 <= i < j < |PageExamples(rec)| ==>
              KindRank(PageExamples(rec)[i].kind) <= KindRank(PageExamples(rec)[j].kind)
    ensures forall k :: 0 <= k < |PageExamples(rec)| && PageExamples(rec)[k].kind == PageSummary ==>
              rec.title != "" && rec.mainContent != "" &&
              PageExamples(rec)[k].input == SummaryQuestion(rec.title) &&
              PageExamples(rec)[k].output == Summarize(rec.mainContent)
  {
    ProductExamplesAre(rec.url, rec.productInfo, "", "");
    var all := PageExamples(rec);
    forall k | 0 <= k < |all|
      ensures all[k].sourceUrl == rec.url
      ensures all[k].kind == PageSummary ==>
                rec.title != "" && rec.mainContent != "" &&
                all[k].input == SummaryQuestion(rec.title) && all[k].output == Summarize(rec.mainContent)
    {
      PageExampleAt(rec, k);
    }
    forall i, j | 0 <= i < j < |all|
      ensures KindRank(all[i].kind) <= KindRank(all[j].kind)
    {
      PageExampleAt(rec, i);
      PageExampleAt(rec, j);
    }
  }

  /** Example `k` of a record carries its URL, and its position fixes its kind: the FAQ
      examples, then the summary, then the product examples. */
  lemma PageExampleAt(rec: Record, k: nat)
    requires k < |PageExamples(rec)|
    ensures var f, s := |FaqExamples(rec)|, |SummaryExamples(rec)|;
            var e := PageExamples(rec)[k];
            && e.sourceUrl == rec.url
            && KindRank(e.kind) == (if k < f then 0 else if k < f + s then 1 else 2)
            && (e.kind == PageSummary ==> |SummaryExamples(rec)| == 1 && e == SummaryExamples(rec)[0])
  {
    var f, s, p := FaqExamples(rec), SummaryExamples(rec), ProductExamples(rec.url, rec.productInfo);
    if k < |f| {
      assert PageExamples(rec)[k] == f[k];
    } else if k < |f| + |s| {
      assert PageExamples(rec)[k] == s[k - |f|];
    } else {
      assert PageExamples(rec)[k] == p[k - |f| - |s|];
    }
  }

  /** Training data of a concatenation of stores is the concatenation of their training
      data: records keep their order. */
  lemma {:induction false} TrainingDataAppend(a: seq<Record>, b: seq<Record>)
    ensures TrainingData(a + b) == TrainingData(a) + TrainingData(b)
    decreases |a|
  {
    if |a| == 0 {
      assert a + b == b;
    } else {
      assert (a + b)[1..] == a[1..] + b;
      TrainingDataAppend(a[1..], b);
    }
  }

  /** Every example of the training data comes from one of the records and carries its URL. */
  lemma {:induction false} TrainingDataSourced(data: seq<Record>)
    ensures forall k :: 0 <= k < |TrainingData(data)| ==>
              exists i :: 0 <= i < |data| && TrainingData(data)[k].sourceUrl == data[i].url
    decreases |data|
  {
    if |data| > 0 {
      TrainingDataSourced(data[1..]);
      PageExamplesShape(data[0]);
      var head, rest := PageExamples(data[0]), TrainingData(data[1..]);
      assert TrainingData(data) == head + rest;
      forall k | 0 <= k < |TrainingData(data)|
        ensures exists i :: 0 <= i < |data| && TrainingData(data)[k].sourceUrl == data[i].url
      {
        if k < |head| {
          assert TrainingData(data)[k] == head[k];
          assert head[k].sourceUrl == data[0].url;
        } else {
          assert TrainingData(data)[k] == rest[k - |head|];
          var i :| 0 <= i < |data[1..]| && rest[k - |head|].sourceUrl == data[1..][i].url;
          assert data[1..][i] == data[i + 1];
          assert TrainingData(data)[k].sourceUrl == data[i + 1].url;
        }
      }
    } else {
      assert TrainingData(data) == [];
    }
  }

  /** A product value of spaces only, as blank selected elements produce, is still emitted
      as an example: the guard rejects only the empty value. */
  lemma BlankProductValueEmitted(url: string, key: string, value: string)
    requires |value| > 0 && forall i :: 0 <= i < |value| ==> IsSpace(value[i])
    ensures ProductExamples(url, [(key, value)]) == [Example(ProductQuestion(key), value, url, ProductInfo)]
  {
  }
}
