/** One review on a listing page, and the field rules that turn it into a
    record of the sixteen output columns. A review node carries, as plain
    values, what the field rules read from the page: element texts,
    attributes, and whether an element is there at all. */
module Review {
  import opened Wrappers
  import opened Text

  /** What the scraper can read from one `empReview` element. */
  datatype ReviewNode = ReviewNode(
    featured: bool,                    // a `featuredFlag` element is present
    date: int,                         // the `datetime` attribute of its `time` element
    text: string,                      // the whole review's text
    authorText: string,                // text of the `authorInfo` element
    jobTitleText: Option<string>,      // text of `authorJobTitle`, if that element exists
    locationText: Option<string>,      // text of `authorLocation`, if that element exists
    summary: string,                   // text of the `summary` element
    mainText: Option<string>,          // text of `mainText`, if that element exists
    commentBlocks: seq<seq<string>>,   // the `mt-md` blocks, each as its paragraph texts
    overallRating: Option<string>,     // `title` of the overall rating, if it can be found
    subRatings: seq<Option<string>>    // `title` of each sub-rating bar, in list order
  )

  /** One output row, field by field in schema order. */
  datatype Record = Record(
    date: int,
    employeeTitle: Option<string>,
    location: Option<string>,
    employeeStatus: string,
    reviewTitle: string,
    yearsAtCompany: Option<string>,
    helpful: nat,
    pros: Option<string>,
    cons: Option<string>,
    adviceToManagement: Option<string>,
    ratingOverall: Option<string>,
    ratingWorkLifeBalance: Option<string>,
    ratingCultureAndValues: Option<string>,
    ratingCareerOpportunities: Option<string>,
    ratingCompAndBenefits: Option<string>,
    ratingSeniorManagement: Option<string>
  )

  /** Employment status: the part of the author line before its first `-`. */
  function EmployeeStatus(authorText: string): (r: string)
    ensures r <= authorText
    ensures '-' !in r
    ensures |r| == |authorText| || authorText[|r|] == '-'
  {
    FirstSegmentIsPrefix(authorText, '-');
    Split(authorText, '-')[0]
  }

  /** `line.split('-')[1]`, or missing when that segment does not exist. */
  function JobTitleSegment(line: string): (r: Option<string>)
    ensures r.None? <==> '-' !in line
    ensures r.Some? ==> '-' !in r.value
    ensures r.Some? ==> EmployeeStatus(line) + "-" + r.value <= line
    ensures r.Some? ==> var n := |EmployeeStatus(line)| + 1 + |r.value|;
                        n == |line| || line[n] == '-'
  {
    var parts := Split(line, '-');
    JoinSplit(line, '-');
    if |parts| > 1 then
      JoinFirstTwo(parts, "-");
      Some(parts[1])
    else
      None
  }

  /** Employee title: attempted only when the review is not by an anonymous
      employee; missing if the title element is absent or its text has no `-`. */
  function EmployeeTitle(node: ReviewNode): (r: Option<string>)
    ensures r.Some? <==> !Contains(node.text, "Anonymous Employee")
                         && node.jobTitleText.Some? && '-' in node.jobTitleText.value
    ensures r.Some? ==> r == JobTitleSegment(node.jobTitleText.value)
  {
    if Contains(node.text, "Anonymous Employee") then None
    else match node.jobTitleText
      case None => None
      case Some(line) => JobTitleSegment(line)
  }

  /** Location: read only when the review text contains `in`. */
  function Location(node: ReviewNode): (r: Option<string>)
    ensures r.Some? ==> Contains(node.text, "in") && r == node.locationText
    ensures Contains(node.text, "in") ==> r == node.locationText
  {
    if Contains(node.text, "in") then node.locationText else None
  }

  /** Review title: the summary with every leading and trailing `"` removed. */
  function ReviewTitle(summary: string): (r: string)
    ensures r == [] || (r[0] != '"' && r[|r| - 1] != '"')
    ensures forall c :: c in r ==> c in summary
    ensures r == [] ==> forall k :: 0 <= k < |summary| ==> summary[k] == '"'
    ensures exists i :: TrimmedAt(summary, r, i, Quotes)
  {
    Strip(summary, Quotes)
  }

  /** A summary that neither starts nor ends with `"` is the title as it is. */
  lemma {:induction false} ReviewTitleKeepsUnquoted(summary: string)
    requires summary == [] || (summary[0] != '"' && summary[|summary| - 1] != '"')
    ensures ReviewTitle(summary) == summary
  {
    StripUnaccepted(summary, Quotes);
  }

  /** Stripping a title again changes nothing. */
  lemma {:induction false} ReviewTitleIdempotent(summary: string)
    ensures ReviewTitle(ReviewTitle(summary)) == ReviewTitle(summary)
  {
    StripIdempotent(summary, Quotes);
  }

  /** The title of a summary wrapped in quotes is what the quotes enclose,
      when that neither starts nor ends with a quote itself. */
  lemma {:induction false} ReviewTitleUnquotes(t: string)
    requires t == [] || (t[0] != '"' && t[|t| - 1] != '"')
    ensures ReviewTitle("\"" + t + "\"") == t
  {
    StripWrapped(t, '"', Quotes);
  }

  /** The helpful-vote count. The scraper slices the element object itself
      rather than its text, which always raises, so the fallback 0 is what is
      recorded. */
  function Helpful(node: ReviewNode): (r: nat)
    ensures r == 0
  {
    0
  }

  /** One paragraph of a comment block: `"\nShow Less"` removed, then every
      newline removed, then surrounding whitespace stripped. */
  function CleanParagraph(t: string): (r: string)
    ensures '\n' !in r
    ensures r == [] || (!IsSpace(r[0]) && !IsSpace(r[|r| - 1]))
    ensures forall c :: c in r ==> c in t
    ensures '\n' !in t ==> r == Strip(t, Spaces)
  {
    var once := RemoveAll(t, "\nShow Less");
    var lines := RemoveAll(once, "\n");
    assert '\n' !in t ==> lines == t by {
      if '\n' !in t {
        NotContainsFirst(t, "\nShow Less");
        NotContainsFirst(t, "\n");
      }
    }
    Strip(lines, Spaces)
  }

  /** An expanded paragraph ends in the "Show Less" link's text; cleaning
      removes it together with the line break before it, and trims the rest. */
  lemma CleanParagraphShowLess(a: string)
    requires '\n' !in a
    ensures CleanParagraph(a + "\nShow Less") == Strip(a, Spaces)
  {
    RemoveAllFirst(a, "\nShow Less", "");
    assert a + "\nShow Less" + "" == a + "\nShow Less";
    assert a + "" == a;
    NotContainsFirst(a, "\n");
  }

  /** A line break that is not followed by "Show Less" is removed outright:
      the two lines are glued together with no space between them. */
  lemma CleanParagraphJoinsLines(a: string, b: string)
    requires '\n' !in a && '\n' !in b
    requires !("Show Less" <= b)
    ensures CleanParagraph(a + "\n" + b) == Strip(a + b, Spaces)
  {
    var pat := "\nShow Less";
    PrefixAfterFirst(pat, b);
    assert pat[1..] == "Show Less";
    NotContainsFirst(b, pat);
    RemoveAllSkip(a, pat, b);
    assert [pat[0]] == "\n";
    RemoveAllFirst(a, "\n", b);
    NotContainsFirst(b, "\n");
  }

  /** Every paragraph cleaned, in order. */
  function CleanParagraphs(ps: seq<string>): (r: seq<string>)
    ensures |r| == |ps|
    ensures forall i :: 0 <= i < |ps| ==> r[i] == CleanParagraph(ps[i])
  {
    seq(|ps|, i requires 0 <= i < |ps| => CleanParagraph(ps[i]))
  }

  /** Pros, cons or advice: block `ind` among the `mt-md` blocks, its first
      paragraph (the label) dropped, the others cleaned and joined by spaces.
      Missing when there is no block, no block `ind`, or no paragraph in it. */
  function Comment(blocks: seq<seq<string>>, ind: nat): (r: Option<string>)
    ensures r.None? <==> |blocks| == 0 || ind >= |blocks| || |blocks[ind]| == 0
    ensures r.Some? ==> '\n' !in r.value
    ensures r.Some? && |blocks[ind]| == 1 ==> r.value == ""
    ensures r.Some? ==> r.value == Join(CleanParagraphs(blocks[ind][1..]), " ")
  {
    if |blocks| < 1 then None
    else if ind >= |blocks| then None
    else
      var ps := blocks[ind];
      if |ps| < 1 then None
      else
        var cleaned := CleanParagraphs(ps[1..]);
        JoinAvoids(cleaned, " ", '\n');
        Some(Join(cleaned, " "))
  }

  /** A block of a label and two paragraphs, the first expanded so that it
      ends in "Show Less": the comment is the two paragraphs, trimmed,
      joined by one space. */
  lemma {:induction false} CommentOfTwoParagraphs(blocks: seq<seq<string>>, ind: nat, heading: string, a: string, b: string)
    requires ind < |blocks| && blocks[ind] == [heading, a + "\nShow Less", b]
    requires '\n' !in a && '\n' !in b
    ensures Comment(blocks, ind) == Some(Strip(a, Spaces) + " " + Strip(b, Spaces))
  {
    var ps := blocks[ind][1..];
    assert |ps| == 2 && ps[0] == a + "\nShow Less" && ps[1] == b;
    var cleaned := CleanParagraphs(ps);
    CleanParagraphShowLess(a);
    JoinFirstTwo(cleaned, " ");
  }

  /** The paragraphs after the label can be read back from a comment by
      splitting at spaces when none of them contains a space. */
  lemma CommentRecoversParagraphs(blocks: seq<seq<string>>, ind: nat)
    requires ind < |blocks| && |blocks[ind]| >= 2
    requires forall i :: 1 <= i < |blocks[ind]| ==> ' ' !in CleanParagraph(blocks[ind][i])
    ensures Comment(blocks, ind).Some?
    ensures Split(Comment(blocks, ind).value, ' ') == CleanParagraphs(blocks[ind][1..])
  {
    var cleaned := CleanParagraphs(blocks[ind][1..]);
    forall i | 0 <= i < |cleaned| ensures ' ' !in cleaned[i] {
      assert blocks[ind][1..][i] == blocks[ind][i + 1];
    }
    SplitJoin(cleaned, ' ');
  }

  /** Sub-rating `i` of the ordered list, missing when there is no such entry. */
  function SubRating(node: ReviewNode, i: nat): (r: Option<string>)
    ensures i >= |node.subRatings| ==> r.None?
    ensures i < |node.subRatings| ==> r == node.subRatings[i]
  {
    if i < |node.subRatings| then node.subRatings[i] else None
  }

  /** All sixteen field rules applied to one review, each on its own: a
      field that is missing leaves every other field as its rule gives it.
      The date and the helpful count are always there; pros, cons and advice
      are the comment blocks 0, 1 and 2; the five sub-ratings are the entries
      0 to 4 of the sub-rating list, in schema order. */
  function ExtractReview(node: ReviewNode): (r: Record)
    ensures r.date == node.date && r.helpful == 0
    ensures r.employeeStatus <= node.authorText
    ensures r.employeeTitle.Some? ==> !Contains(node.text, "Anonymous Employee")
    ensures r.location.Some? ==> Contains(node.text, "in")
    ensures r.yearsAtCompany == node.mainText && r.ratingOverall == node.overallRating
    ensures r.pros.None? <==> |node.commentBlocks| < 1 || |node.commentBlocks[0]| == 0
    ensures r.cons.None? <==> |node.commentBlocks| < 2 || |node.commentBlocks[1]| == 0
    ensures r.adviceToManagement.None? <==> |node.commentBlocks| < 3 || |node.commentBlocks[2]| == 0
    ensures |node.subRatings| >= 5 ==>
              r.ratingWorkLifeBalance == node.subRatings[0]
              && r.ratingCultureAndValues == node.subRatings[1]
              && r.ratingCareerOpportunities == node.subRatings[2]
              && r.ratingCompAndBenefits == node.subRatings[3]
              && r.ratingSeniorManagement == node.subRatings[4]
    ensures |node.subRatings| < 5 ==> r.ratingSeniorManagement.None?
    ensures r.employeeTitle == EmployeeTitle(node) && r.location == Location(node)
    ensures r.employeeStatus == EmployeeStatus(node.authorText)
    ensures r.reviewTitle == ReviewTitle(node.summary)
    ensures r.pros == Comment(node.commentBlocks, 0)
    ensures r.cons == Comment(node.commentBlocks, 1)
    ensures r.adviceToManagement == Comment(node.commentBlocks, 2)
    ensures r.ratingWorkLifeBalance == SubRating(node, 0)
    ensures r.ratingCultureAndValues == SubRating(node, 1)
    ensures r.ratingCareerOpportunities == SubRating(node, 2)
    ensures r.ratingCompAndBenefits == SubRating(node, 3)
    ensures r.ratingSeniorManagement == SubRating(node, 4)
  {
    Record(
      node.date,
      EmployeeTitle(node),
      Location(node),
      EmployeeStatus(node.authorText),
      ReviewTitle(node.summary),
      node.mainText,
      Helpful(node),
      Comment(node.commentBlocks, 0),
      Comment(node.commentBlocks, 1),
      Comment(node.commentBlocks, 2),
      node.overallRating,
      SubRating(node, 0),
      SubRating(node, 1),
      SubRating(node, 2),
      SubRating(node, 3),
      SubRating(node, 4))
  }
}
