/**
  The knowledge-base formatter: `clean_text`, which normalises whitespace and drops repeated
  and short sentences, and `format_for_ai_knowledge_base`, which renders the first scraped
  record into a fixed Markdown document. The regular expressions that pull testimonials out
  of the page text are an oracle.
 */
module Knowledge {
  import opened Wrappers
  import opened Text

  // ---------------------------------------------------------------- clean_text

  const SentenceSeparator: string := ". "

  /** `len(sentence.strip()) > 10`. */
  predicate Substantial(s: string) {
    |Strip(s)| > 10
  }

  /** The index of the first occurrence of `x` in `p`. */
  function FirstIndex(p: seq<string>, x: string): (i: nat)
    requires x in p
    ensures i < |p| && p[i] == x
    ensures forall j :: 0 <= j < i ==> p[j] != x
  {
    if p[0] == x then 0 else 1 + FirstIndex(p[1..], x)
  }

  lemma FirstIndexIs(p: seq<string>, x: string, i: nat)
    requires i < |p| && p[i] == x
    requires forall j :: 0 <= j < i ==> p[j] != x
    ensures FirstIndex(p, x) == i
  {
  }

  /** The sentences `clean_text` keeps, defined on prefixes as its loop builds them: a piece
      is appended when it is substantial and not kept already. */
  function Unique(p: seq<string>): (u: seq<string>)
    ensures |u| <= |p|
  {
    if |p| == 0 then []
    else
      var u := Unique(p[..|p| - 1]);
      var s := p[|p| - 1];
      if s !in u && Substantial(s) then u + [s] else u
  }

  /** The kept sentences are distinct, are exactly the substantial pieces, and come in the
      order of their first occurrence among the pieces. */
  lemma {:induction false} UniqueIsFirstOccurrences(p: seq<string>)
    ensures forall x :: x in Unique(p) <==> x in p && Substantial(x)
    ensures forall i, j :: 0 <= i < j < |Unique(p)| ==> Unique(p)[i] != Unique(p)[j]
    ensures forall i, j :: 0 <= i < j < |Unique(p)| ==> FirstIndex(p, Unique(p)[i]) < FirstIndex(p, Unique(p)[j])
    decreases |p|
  {
    if |p| > 0 {
      var n := |p| - 1;
      var q := p[..n];
      var s := p[n];
      UniqueIsFirstOccurrences(q);
      var u := Unique(q);
      assert p == q + [s];
      forall x | x in q
        ensures FirstIndex(p, x) == FirstIndex(q, x)
      {
        FirstIndexIs(p, x, FirstIndex(q, x));
      }
      if s !in u && Substantial(s) {
        assert s !in q;
        FirstIndexIs(p, s, n);
        var v := u + [s];
        forall i, j | 0 <= i < j < |v|
          ensures FirstIndex(p, v[i]) < FirstIndex(p, v[j])
        {
          if j < |u| {
            assert v[i] == u[i] && v[j] == u[j];
          } else {
            assert v[i] == u[i];
          }
        }
      }
    }
  }

  /** The de-duplicating loop of `clean_text`. */
  method KeepSentences(pieces: seq<string>) returns (kept: seq<string>)
    ensures kept == Unique(pieces)
    ensures forall i, j :: 0 <= i < j < |kept| ==> kept[i] != kept[j]
    ensures forall x :: x in kept <==> x in pieces && Substantial(x)
  {
    kept := [];
    for i := 0 to |pieces|
      invariant kept == Unique(pieces[..i])
    {
      assert pieces[..i + 1][..i] == pieces[..i];
      if pieces[i] !in kept && |Strip(pieces[i])| > 10 {
        kept := kept + [pieces[i]];
      }
    }
    assert pieces[..|pieces|] == pieces;
    UniqueIsFirstOccurrences(pieces);
  }

  /** The pieces `clean_text` splits its normalised text into. */
  function Pieces(t: string): seq<string> {
    Split(Collapse(Strip(t)), SentenceSeparator)
  }

  /** `clean_text`; None stands for Python's `None`. */
  function CleanText(text: Option<string>): (r: string)
    ensures text.None? || text == Some("") ==> r == ""
  {
    if text.None? || text.value == "" then ""
    else Join(SentenceSeparator, Unique(Pieces(text.value)))
  }

  /** Splitting a whitespace-normal text with no leading space at a separator ending in a
      space gives whitespace-normal pieces with no leading space. */
  lemma {:induction false} SplitTidy(s: string, sep: string)
    requires |sep| > 0 && sep[|sep| - 1] == ' '
    requires Tidy(s) && NoLeadingSpace(s)
    ensures forall i :: 0 <= i < |Split(s, sep)| ==> Tidy(Split(s, sep)[i]) && NoLeadingSpace(Split(s, sep)[i])
    decreases |s|
  {
    match IndexFrom(s, sep, 0)
    case None =>
    case Some(i) =>
      var rest := s[i + |sep|..];
      TidySlice(s, 0, i);
      TidySlice(s, i + |sep|, |s|);
      assert s[..i] == s[0..i];
      assert s[i..i + |sep|] == sep;
      assert s[i + |sep| - 1] == ' ';
      assert |rest| > 0 ==> rest[0] == s[i + |sep|];
      SplitTidy(rest, sep);
  }

  /** Joining non-empty whitespace-normal sentences without leading spaces at `". "` keeps
      the text whitespace-normal. */
  lemma {:induction false} JoinTidy(parts: seq<string>)
    requires forall i :: 0 <= i < |parts| ==> Tidy(parts[i]) && |parts[i]| > 0 && NoLeadingSpace(parts[i])
    ensures Tidy(Join(SentenceSeparator, parts)) && NoLeadingSpace(Join(SentenceSeparator, parts))
    decreases |parts|
  {
    if |parts| > 1 {
      var a, rest := parts[0], parts[1..];
      JoinTidy(rest);
      var j := Join(SentenceSeparator, rest);
      assert !IsSpace(SentenceSeparator[0]);
      assert Tidy(SentenceSeparator);
      TidyConcat(a, SentenceSeparator);
      TidyConcat(a + SentenceSeparator, j);
      assert Join(SentenceSeparator, parts) == a + SentenceSeparator + j;
    }
  }

  /** Every kept sentence is a non-empty whitespace-normal piece with no leading space and
      no `". "` inside. */
  lemma KeptAreClean(text: string)
    ensures forall i :: 0 <= i < |Unique(Pieces(text))| ==>
              var x := Unique(Pieces(text))[i];
              Tidy(x) && |x| > 0 && NoLeadingSpace(x) && !Contains(x, SentenceSeparator)
  {
    var t := Collapse(Strip(text));
    var p := Pieces(text);
    var kept := Unique(p);
    assert NoLeadingSpace(t) by {
      if |t| > 0 {
        assert |Strip(text)| > 0;
      }
    }
    SplitTidy(t, SentenceSeparator);
    UniqueIsFirstOccurrences(p);
    forall i | 0 <= i < |kept|
      ensures Tidy(kept[i]) && |kept[i]| > 0 && NoLeadingSpace(kept[i]) && !Contains(kept[i], SentenceSeparator)
    {
      assert kept[i] in p;
    }
  }

  /** The output of `clean_text` is whitespace-normal: only plain spaces, never two in a
      row, none in front. */
  lemma CleanTextTidy(text: Option<string>)
    ensures Tidy(CleanText(text)) && NoLeadingSpace(CleanText(text))
  {
    if text.Some? && text.value != "" {
      KeptAreClean(text.value);
      JoinTidy(Unique(Pieces(text.value)));
    }
  }

  /** Splitting the output of `clean_text` at `". "` gives back exactly the sentences it
      kept: distinct substantial pieces of the normalised input, in order of first occurrence
      (`UniqueIsFirstOccurrences`). */
  lemma CleanTextSplits(text: string)
    ensures text != "" && |Unique(Pieces(text))| > 0 ==>
              Split(CleanText(Some(text)), SentenceSeparator) == Unique(Pieces(text))
  {
    if text != "" && |Unique(Pieces(text))| > 0 {
      KeptAreClean(text);
      assert SentenceSeparator[1..][0] == ' ' && SentenceSeparator[..1][0] == '.';
      SplitJoin(Unique(Pieces(text)), SentenceSeparator);
    }
  }

  // ---------------------------------------------------------------- format_for_ai_knowledge_base

  /** One testimonial the extraction oracle found: the client company and its quote. */
  datatype Testimonial = Testimonial(company: string, testimonial: string)

  const NoData: string := "No data found in JSON file."
  const CompanyName: string := "Eagles Team Experiences"
  /** The prefix the specialization line removes from the page title, wherever it occurs. */
  const TitlePrefix: string := "Eagles Team Experiences - "
  const MaxTestimonials: nat := 6
  const TestimonialsHeader: string := "## Client Testimonials\n\n"

  /** `entry.get(key, '')` on a scraped record read back from JSON. */
  function Field(entry: map<string, string>, key: string): string {
    if key in entry then entry[key] else ""
  }

  /** The fixed parts of the document, kept apart from the rendering so that what is proved
      about the rendering holds for any fixed text. */
  datatype Template = Template(
    overviewTail: string,
    activities: seq<(string, string, string)>,
    services: string,
    closing: string)

  /** The text after the description line of the overview: experience, location, mission,
      core services and the heading of the activity list. */
  const OverviewTail: string :=
    "\n"
    + "**Experience:** " + "More than 30 years " + "helping teams improve "
    + "communication and " + "strengthen cohesion\n"
    + "**Location:** Paris, " + "France (with services " + "throughout France)\n"
    + "\n"
    + "## Company Mission\n"
    + "To help teams improve " + "their communication " + "and strengthen their "
    + "cohesion. Whether " + "you want to revive " + "your team's bonds "
    + "or if you're forming " + "a new team, Eagles " + "Team Experiences "
    + "is there to help " + "and meet all your " + "needs.\n"
    + "\n"
    + "## Core Services\n"
    + "Eagles Team Experiences " + "specializes in creating " + "unique, surprising, "
    + "playful, original, " + "fantastic, innovative, " + "fun, challenging, "
    + "creative, musical, " + "cinematic, recreational," + " amazing, and entertaini"
    + "ng team building " + "experiences.\n"
    + "\n"
    + "## Best Seller Team " + "Building Activities\n"
    + "\n"

  /** The first line of the document. */
  const TitleLine: string := "# " + CompanyName + " - Knowledge Base\n"

  /** The heading, company overview and fixed introduction of the document. */
  function Overview(tpl: Template, website: string, title: string, metaDescription: string): (r: string)
    ensures StartsWith(r, TitleLine)
  {
    var body :=
      "\n## Company Overview\n**Company Name:** " + CompanyName
      + "\n**Website:** " + website
      + "\n**Specialization:** " + ReplaceAll(title, TitlePrefix, "")
      + "\n**Description:** " + metaDescription
      + tpl.overviewTail;
    ConcatEnds(TitleLine, body);
    TitleLine + body
  }

  const ActivitySeparator: string := " - "

  /** The five best-seller activities: name, type and description. The source stores each
      type and description as one text joined by `" - "` (see `Described`) and splits it again
      when rendering. */
  const Activities: seq<(string, string, string)> := [
    ("Bagel Quiz", "Quiz with offbeat humor", "Experience a fun team activity with entertaining quiz format"),
    ("City Express", "Digital cultural discovery course", "Complete a digital cultural and discovery route through Parisian streets"),
    ("Olympia", "Team skill development", "Learn team reflexes, behaviors, and qualities that contribute to success in all circumstances"),
    ("Escape Box", "Team challenge", "Work together to open the safe/chest"),
    ("Green City", "Creative sustainability challenge", "Create the city of tomorrow using imagination, creativity, and social responsibility")
  ]

  /** The stored description text of an activity. */
  function Described(a: (string, string, string)): string {
    a.1 + ActivitySeparator + a.2
  }

  /** The stored text of an activity contains the separator after its type. */
  lemma DescribedSplits(a: (string, string, string))
    ensures |Split(Described(a), ActivitySeparator)| >= 2
  {
    var s := Described(a);
    assert s[|a.1|..|a.1| + |ActivitySeparator|] == ActivitySeparator;
    SplitContains(s, ActivitySeparator, |a.1|);
  }

  /** Splitting the stored text at `" - "` gives back the type and the description when
      neither holds a dash, as none of the five does. */
  lemma DashSplit(a: (string, string, string))
    requires '-' !in a.1 && '-' !in a.2
    ensures Split(Described(a), ActivitySeparator) == [a.1, a.2]
  {
    var sep := ActivitySeparator;
    var s := Described(a);
    assert s[|a.1|..|a.1| + |sep|] == sep;
    assert MatchAt(s, sep, |a.1|);
    forall j: nat | j < |a.1|
      ensures !MatchAt(s, sep, j)
    {
      assert s[j..j + |sep|][1] == s[j + 1];
      if j + 1 < |a.1| {
        assert s[j + 1] == a.1[j + 1];
      } else {
        assert s[j + 1] == ' ';
      }
    }
    assert IndexFrom(s, sep, 0) == Some(|a.1|);
    assert s[..|a.1|] == a.1 && s[|a.1| + |sep|..] == a.2;
    forall j: nat | j + |sep| <= |a.2|
      ensures !MatchAt(a.2, sep, j)
    {
      assert a.2[j..j + |sep|][1] == a.2[j + 1];
    }
    assert IndexFrom(a.2, sep, 0).None?;
  }

  /** The block of one activity, from the type and description split out of its text. */
  function ActivityBlock(a: (string, string, string)): string {
    DescribedSplits(a);
    var parts := Split(Described(a), ActivitySeparator);
    "### " + a.0 + "\n**Type:** " + parts[0] + "\n**Description:** " + parts[1]
      + "\n**Benefits:** Team bonding and skill development\n\n"
  }

  function ActivityBlocks(acts: seq<(string, string, string)>): string {
    if |acts| == 0 then "" else ActivityBlock(acts[0]) + ActivityBlocks(acts[1..])
  }

  /** The fixed service categories and additional services. */
  const Services: string :=
    "## Service Categories\n"
    + "- **Best Sellers** " + "- Most popular team " + "building activities\n"
    + "- **Surveys and " + "Courses** (Enqu\U{00EA}tes " + "et parcours) - Interacti"
    + "ve discovery experiences" + "\n"
    + "- **Music and Arts** " + "(Musique et arts) " + "- Creative artistic "
    + "team activities\n"
    + "- **Challenges** " + "- Problem-solving " + "and competitive " + "team exercises\n"
    + "- **Team Cohesion** " + "(Coh\U{00E9}sion d'\U{00E9}quipe) " + "- Activities focused "
    + "on building team " + "unity\n"
    + "- **CSR Activities** " + "(RSE) - Corporate " + "Social Responsibility "
    + "focused events\n"
    + "- **Gastronomy** " + "- Food and cooking " + "based team experiences\n"
    + "- **Custom Solutions** " + "(Sur-mesure) - Tailored " + "activities for specific "
    + "needs\n"
    + "\n"
    + "## Additional Services\n"
    + "- Team Building " + "activities for all " + "group sizes\n"
    + "- Kick-Off Solutions " + "for new teams\n"
    + "- Outdoor Experiences " + "in natural settings\n"
    + "- Partner Locations " + "throughout France\n"
    + "- Extra Services " + "and add-ons\n"
    + "- Custom Corporate " + "Entertainment solutions\n"
    + "\n"

  /** The fixed promises, contact information and keywords. */
  const Promises: string :=
    "## Company Promises\n"
    + "- **Quick Response:** " + "Response in less " + "than 2 hours\n"
    + "- **Dedicated Team:** " + "A team dedicated " + "to its clients\n"
    + "- **Expert Company:** " + "Specialized in corporate" + " entertainment\n"
    + "- **Custom Solutions:** " + "Ability to meet " + "specific client " + "needs\n"
    + "- **Proven Experience:**" + " Over 30 years in " + "team building industry\n"
    + "\n"
    + "## Contact Information\n"
    + "- **Website:** https://e" + "agles-team-experiences.c" + "om/\n"
    + "- **Phone:** +33 " + "1 74 62 92 64\n"
    + "- **Services:** " + "Available throughout " + "France with focus " + "on Paris\n"
    + "- **Quote Request:** " + "Quick quote available " + "through website "
    + "contact form\n"
    + "- **Response Time:** " + "Less than 2 hours " + "for inquiries\n"
    + "\n"
    + "## Keywords and " + "Tags\n"
    + "team building, corporate" + " events, Paris, " + "France, team experiences"
    + ", communication, " + "cohesion, corporate " + "entertainment, team "
    + "activities, professional" + " development, team " + "bonding, custom "
    + "solutions, outdoor " + "activities, indoor " + "activities, creative "
    + "challenges, problem " + "solving, employee " + "engagement\n"
    + "\n"

  /** The closing block. It is a plain string in the source, not a format string, so the
      date placeholder is emitted as written and the clock is never read. */
  const LastUpdated: string :=
    "## Last Updated\n"
    + "Data extracted on: " + "{datetime.now().strftime" + "('%Y-%m-%d %H:%M:%S')}\n"

  function TestimonialBlock(t: Testimonial): string {
    "### " + t.company + "\n\"" + t.testimonial + "\"\n\n"
  }

  function TestimonialBlocks(ts: seq<Testimonial>): string {
    if |ts| == 0 then "" else TestimonialBlock(ts[0]) + TestimonialBlocks(ts[1..])
  }

  /** The first `MaxTestimonials` testimonials (`testimonials[:6]`). */
  function Shown(ts: seq<Testimonial>): (r: seq<Testimonial>)
    ensures |r| <= MaxTestimonials && r <= ts
    ensures |ts| <= MaxTestimonials ==> r == ts
  {
    if |ts| <= MaxTestimonials then ts else ts[..MaxTestimonials]
  }

  /** The testimonial section: nothing when there are none, else the header and one block
      for each of the first six. */
  function TestimonialsSection(ts: seq<Testimonial>): (r: string)
    ensures r == "" <==> |ts| == 0
    ensures |ts| > 0 ==> StartsWith(r, TestimonialsHeader)
  {
    if |ts| == 0 then ""
    else
      var r := TestimonialsHeader + TestimonialBlocks(Shown(ts));
      assert r[..|TestimonialsHeader|] == TestimonialsHeader;
      r
  }

  /** Testimonials after the sixth never reach the document. */
  lemma OnlySixShown(ts: seq<Testimonial>, extra: seq<Testimonial>)
    requires |ts| >= MaxTestimonials
    ensures TestimonialsSection(ts + extra) == TestimonialsSection(ts)
  {
    assert (ts + extra)[..MaxTestimonials] == ts[..MaxTestimonials];
    if |ts| == MaxTestimonials {
      assert ts[..MaxTestimonials] == ts;
    }
    assert Shown(ts + extra) == Shown(ts);
  }

  /** The document's fixed texts: the closing text is the promises followed by the
      last-updated block. */
  const Fixed: Template := Template(OverviewTail, Activities, Services, Promises + LastUpdated)

  /** The document before the testimonials: overview, activities and services. */
  function Head(tpl: Template, entry: map<string, string>): (r: string)
    ensures StartsWith(r, TitleLine)
  {
    var overview := Overview(tpl, Field(entry, "url"), Field(entry, "title"), Field(entry, "meta_description"));
    PrefixOfConcat(overview, ActivityBlocks(tpl.activities) + tpl.services, TitleLine);
    overview + (ActivityBlocks(tpl.activities) + tpl.services)
  }

  /** The document for the first record, with the testimonials the oracle finds in its main
      content. */
  function Render(tpl: Template, data: seq<map<string, string>>, testimonials: string -> seq<Testimonial>): (r: string)
    ensures |data| == 0 ==> r == NoData
  {
    if |data| == 0 then NoData
    else
      var entry := data[0];
      Head(tpl, entry) + (TestimonialsSection(testimonials(Field(entry, "main_content"))) + tpl.closing)
  }

  /** `format_for_ai_knowledge_base`. */
  function FormatKnowledgeBase(data: seq<map<string, string>>, testimonials: string -> seq<Testimonial>): (r: string)
    ensures |data| == 0 ==> r == NoData
  {
    Render(Fixed, data, testimonials)
  }

  /** Only the first record is read: two stores that agree on it give the same document. */
  lemma FirstRecordOnly(tpl: Template, a: seq<map<string, string>>, b: seq<map<string, string>>, testimonials: string -> seq<Testimonial>)
    requires |a| > 0 && |b| > 0 && a[0] == b[0]
    ensures Render(tpl, a, testimonials) == Render(tpl, b, testimonials)
  {
  }

  /** For a non-empty store the document starts with its title line (so it is never the
      no-data message) and ends with the testimonial section followed by the fixed closing
      text. */
  lemma RenderShape(tpl: Template, data: seq<map<string, string>>, testimonials: string -> seq<Testimonial>)
    requires |data| > 0
    ensures var r := Render(tpl, data, testimonials);
            var section := TestimonialsSection(testimonials(Field(data[0], "main_content")));
            && StartsWith(r, TitleLine)
            && r != NoData
            && EndsWith(r, section + tpl.closing)
  {
    var entry := data[0];
    var head := Head(tpl, entry);
    var tail := TestimonialsSection(testimonials(Field(entry, "main_content"))) + tpl.closing;
    PrefixOfConcat(head, tail, TitleLine);
    ConcatEnds(head, tail);
    assert |NoData| < |TitleLine|;
  }

  /** The document never reads the clock: for a non-empty store it ends with the
      last-updated block holding the date placeholder as written. */
  lemma ClockFree(data: seq<map<string, string>>, testimonials: string -> seq<Testimonial>)
    requires |data| > 0
    ensures EndsWith(FormatKnowledgeBase(data, testimonials), LastUpdated)
  {
    var section := TestimonialsSection(testimonials(Field(data[0], "main_content")));
    RenderShape(Fixed, data, testimonials);
    ConcatEnds(Promises, LastUpdated);
    SuffixOfConcat(section, Fixed.closing, LastUpdated);
    SuffixTrans(Render(Fixed, data, testimonials), section + Fixed.closing, LastUpdated);
  }

  /** A title without the company prefix is shown unchanged as the specialization. */
  lemma SpecializationKeepsTitle(title: string)
    requires !Contains(title, TitlePrefix)
    ensures ReplaceAll(title, TitlePrefix, "") == title
  {
    ReplaceAbsent(title, TitlePrefix, "");
  }
}
