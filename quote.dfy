/** The quote record and the category enumeration of the domain model. */
module QuoteModel {
  import opened Outcomes
  import Text

  /** A quote as the remote back ends store it; every field has a default, and the
      all-default value is the "nothing loaded yet" sentinel. */
  datatype Quote = Quote(
    id: string,
    content: string,
    author: string,
    category: string,
    tags: Option<seq<string>>,
    likes: int,
    isFeatured: bool,
    createdAt: string)

  /** `Quote()` with every parameter left at its default. */
  const EmptyQuote: Quote := Quote("", "", "", "MOTIVATION", Some([]), 0, false, "")

  /** The empty sentinel has no identity, no text, no likes and is not featured, and its
      category string parses to MOTIVATION. */
  lemma EmptyQuoteIsSentinel()
    ensures EmptyQuote.id == "" && EmptyQuote.content == "" && EmptyQuote.author == ""
    ensures EmptyQuote.likes == 0 && !EmptyQuote.isFeatured && EmptyQuote.tags == Some([])
    ensures FromString(EmptyQuote.category) == Motivation
    ensures ValueOf(EmptyQuote.category) == Some(Motivation)
  {
    FromStringName(Motivation);
  }

  datatype QuoteCategory =
    | Motivation | Love | Success | Wisdom | Humor
    | Life | Inspiration | Business | Spiritual | Friendship

  /** The enum constant's `name`. */
  function Name(c: QuoteCategory): string {
    match c
    case Motivation => "MOTIVATION"
    case Love => "LOVE"
    case Success => "SUCCESS"
    case Wisdom => "WISDOM"
    case Humor => "HUMOR"
    case Life => "LIFE"
    case Inspiration => "INSPIRATION"
    case Business => "BUSINESS"
    case Spiritual => "SPIRITUAL"
    case Friendship => "FRIENDSHIP"
  }

  function DisplayName(c: QuoteCategory): string {
    match c
    case Motivation => "Motivation"
    case Love => "Love"
    case Success => "Success"
    case Wisdom => "Wisdom"
    case Humor => "Humor"
    case Life => "Life"
    case Inspiration => "Inspiration"
    case Business => "Business"
    case Spiritual => "Spiritual"
    case Friendship => "Friendship"
  }

  /** `QuoteCategory.valueOf(s)`: the constant whose name is exactly `s`; None where
      Kotlin throws IllegalArgumentException. */
  function ValueOf(s: string): (r: Option<QuoteCategory>)
    ensures r.Some? ==> Name(r.value) == s
    ensures r.None? <==> forall c :: Name(c) != s
  {
    if s == "MOTIVATION" then Some(Motivation)
    else if s == "LOVE" then Some(Love)
    else if s == "SUCCESS" then Some(Success)
    else if s == "WISDOM" then Some(Wisdom)
    else if s == "HUMOR" then Some(Humor)
    else if s == "LIFE" then Some(Life)
    else if s == "INSPIRATION" then Some(Inspiration)
    else if s == "BUSINESS" then Some(Business)
    else if s == "SPIRITUAL" then Some(Spiritual)
    else if s == "FRIENDSHIP" then Some(Friendship)
    else None
  }

  /** `fromString`: valueOf of the upper-cased text, MOTIVATION when that throws. */
  function FromString(value: string): QuoteCategory {
    match ValueOf(Text.Upper(value))
    case Some(c) => c
    case None => Motivation
  }

  lemma ValueOfName(c: QuoteCategory)
    ensures ValueOf(Name(c)) == Some(c)
  {
  }

  /** Upper-casing an enum name leaves it unchanged. */
  lemma UpperName(c: QuoteCategory)
    ensures Text.Upper(Name(c)) == Name(c)
  {
    var n := Name(c);
    forall i | 0 <= i < |n| ensures Text.AsciiUpper(n[i]) == n[i] {
      assert 'A' <= n[i] <= 'Z';
    }
  }

  /** Every category parses back from its own name. */
  lemma FromStringName(c: QuoteCategory)
    ensures FromString(Name(c)) == c
  {
    UpperName(c);
  }

  /** fromString ignores case: it depends only on the upper-cased text. */
  lemma FromStringIgnoresCase(value: string)
    ensures FromString(value) == FromString(Text.Upper(value))
  {
    Text.UpperIdempotent(value);
  }

  /** fromString is total: text that is no category name once upper-cased yields MOTIVATION,
      and text that is one yields that category. */
  lemma FromStringDefault(value: string)
    ensures (forall c :: Name(c) != Text.Upper(value)) ==> FromString(value) == Motivation
    ensures forall c :: Name(c) == Text.Upper(value) ==> FromString(value) == c
  {
  }

  /** Each display name upper-cases to the enum name, so it parses back to its category. */
  lemma FromStringDisplayName(c: QuoteCategory)
    ensures Text.Upper(DisplayName(c)) == Name(c)
    ensures FromString(DisplayName(c)) == c
  {
    var d := DisplayName(c);
    assert |d| == |Name(c)|;
    forall i | 0 <= i < |d| ensures Text.AsciiUpper(d[i]) == Name(c)[i] {
    }
  }
}
