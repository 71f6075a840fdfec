/** The pure expressions of the pipeline: the title and description given to a
    stored link, the sender's display name, the feed guid and the feed URL. */
module Compose {
  import opened Types

  const AttributionPrefix: string := "Shared by "
  const DescriptionSeparator: string := " - "
  const UnknownSender: string := "Unknown"

  /** The sender's first name, or "Unknown" for a message without a sender. */
  function SenderName(firstName: Option<string>): (name: string)
    ensures firstName.None? ==> name == UnknownSender
    ensures firstName.Some? ==> name == firstName.value
  {
    match firstName
    case Some(n) => n
    case None => UnknownSender
  }

  /** "Shared by {name}": the part of every description that credits the sender. */
  function Attribution(name: string): (a: string)
    ensures |a| == |AttributionPrefix| + |name|
    ensures a[..|AttributionPrefix|] == AttributionPrefix && a[|AttributionPrefix|..] == name
  {
    AttributionPrefix + name
  }

  /** The fetched title when it is truthy, else the URL itself. */
  function ComposeTitle(url: string, og: OGData): (title: string)
    ensures Truthy(og.title) ==> title == og.title.value
    ensures !Truthy(og.title) ==> title == url
    ensures url != "" ==> title != ""
  {
    if Truthy(og.title) then og.title.value else url
  }

  /** The attribution, followed by " - " and the fetched description when that is truthy. */
  function ComposeDescription(name: string, og: OGData): (d: string)
    ensures |d| >= |Attribution(name)| && d[..|Attribution(name)|] == Attribution(name)
    ensures d == Attribution(name) <==> !Truthy(og.description)
    ensures Truthy(og.description) ==>
      d[|Attribution(name)|..] == DescriptionSeparator + og.description.value
  {
    var shared := Attribution(name);
    if Truthy(og.description) then shared + DescriptionSeparator + og.description.value else shared
  }

  /** The fetched description a composed description carries, "" when it carries none. */
  function FetchedDescription(d: string, name: string): (fetched: string)
  {
    var n := |Attribution(name)| + |DescriptionSeparator|;
    if |d| > n then d[n..] else ""
  }

  /** A composed description gives back exactly the truthy fetched description. */
  lemma DescriptionRoundTrip(name: string, og: OGData)
    ensures FetchedDescription(ComposeDescription(name, og), name)
         == if Truthy(og.description) then og.description.value else ""
  {
    var d := ComposeDescription(name, og);
    var n := |Attribution(name)| + |DescriptionSeparator|;
    if Truthy(og.description) {
      assert d == Attribution(name) + DescriptionSeparator + og.description.value;
      assert d[n..] == og.description.value;
    }
  }

  /** The link row built for one URL of a message. */
  function ComposeLink(url: string, og: OGData, name: string, messageId: int, date: Date): LinkData
  {
    LinkData(url, ComposeTitle(url, og), ComposeDescription(name, og), date, og.image, Some(messageId))
  }

  /** A fetch that failed leaves the URL as title and the attribution alone as description. */
  lemma FetchFailureDegrades(url: string, name: string, messageId: int, date: Date)
    ensures ComposeLink(url, EmptyOG, name, messageId, date).title == url
    ensures ComposeLink(url, EmptyOG, name, messageId, date).description == Attribution(name)
  {
  }

  function DigitChar(d: nat): (c: char)
    requires d < 10
    ensures '0' <= c <= '9'
  {
    (48 + d) as char
  }

  /** Decimal digits of n, most significant first, without leading zeros. */
  function DecimalText(n: nat): (s: string)
    ensures |s| >= 1
    ensures forall k :: 0 <= k < |s| ==> '0' <= s[k] <= '9'
    ensures n >= 10 ==> |s| >= 2
    decreases n
  {
    if n < 10 then [DigitChar(n)] else DecimalText(n / 10) + [DigitChar(n % 10)]
  }

  /** Distinct dates render to distinct digit strings. */
  lemma {:induction false} DecimalTextInjective(a: nat, b: nat)
    requires DecimalText(a) == DecimalText(b)
    ensures a == b
    decreases a
  {
    var s := DecimalText(a);
    if a >= 10 && b >= 10 {
      var pa, pb := DecimalText(a / 10), DecimalText(b / 10);
      assert s == pa + [DigitChar(a % 10)];
      assert s == pb + [DigitChar(b % 10)];
      assert pa == s[..|s| - 1] == pb;
      assert DigitChar(a % 10) == s[|s| - 1] == DigitChar(b % 10);
      DecimalTextInjective(a / 10, b / 10);
    }
  }

  /** The feed item guid: the URL, "_", and the publish timestamp. */
  function Guid(url: string, date: Date): (g: string)
    ensures |g| == |url| + 1 + |DecimalText(date)|
    ensures g[..|url|] == url && g[|url|] == '_'
    ensures g[|url| + 1..] == DecimalText(date)
  {
    url + "_" + DecimalText(date)
  }

  /** The guid is a deterministic, one-to-one function of (URL, date): the
      timestamp holds no "_", so the last "_" of the guid is the separator. */
  lemma GuidInjective(url1: string, date1: Date, url2: string, date2: Date)
    requires Guid(url1, date1) == Guid(url2, date2)
    ensures url1 == url2 && date1 == date2
  {
    var g := Guid(url1, date1);
    var d1, d2 := DecimalText(date1), DecimalText(date2);
    var p1, p2 := |url1|, |url2|;
    assert g == url1 + "_" + d1 == url2 + "_" + d2;
    assert g[p1] == '_' && g[p2] == '_';
    assert forall k :: p1 < k < |g| ==> g[k] == d1[k - p1 - 1];
    assert forall k :: p2 < k < |g| ==> g[k] == d2[k - p2 - 1];
    assert p1 == p2;
    assert url1 == g[..|url1|] == url2;
    assert d1 == g[|url1| + 1..] == d2;
    DecimalTextInjective(date1, date2);
  }

  const FeedPath: string := "/rss?token="

  /** The feed URL the /rssfeed command replies with. */
  function FeedUrl(appUrl: string, token: Token): (u: string)
    ensures |u| == |appUrl| + |FeedPath| + |token|
    ensures u[..|appUrl|] == appUrl
    ensures u[|appUrl|..|appUrl| + |FeedPath|] == FeedPath
    ensures u[|appUrl| + |FeedPath|..] == token
  {
    appUrl + FeedPath + token
  }

  /** The whole reply text of the /rssfeed command. */
  function FeedLinkReply(appUrl: string, token: Token): (reply: string)
    ensures |reply| >= |FeedUrl(appUrl, token)|
    ensures reply[|reply| - |FeedUrl(appUrl, token)|..] == FeedUrl(appUrl, token)
    ensures reply[|reply| - |token|..] == token
  {
    "Your RSS feed link, use it in your RSS reader:\n" + FeedUrl(appUrl, token)
  }
}
