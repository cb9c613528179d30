/** What each bookmark card and the page header show, as functions of the data. */
module Display {

  import opened Optional

  /** The link text: `url.replace(/^https?:\/\//, "")`, which strips one leading `http://` or `https://`. */
  function DisplayUrl(url: string): (r: string)
    ensures |r| <= |url| && r == url[|url| - |r|..]
  {
    if "https://" <= url then url[8..]
    else if "http://" <= url then url[7..]
    else url
  }

  /** The scheme put in front of the shown text is exactly what gets stripped. */
  lemma DisplayUrlStripsScheme(rest: string)
    ensures DisplayUrl("https://" + rest) == rest
    ensures DisplayUrl("http://" + rest) == rest
  {
    assert ("https://" + rest)[8..] == rest;
    assert ("http://" + rest)[7..] == rest;
    assert !("https://" <= "http://" + rest) by {
      assert ("http://" + rest)[4] == ':';
    }
  }

  /** A url that starts with neither scheme is shown as it is. */
  lemma DisplayUrlKeepsOthers(url: string)
    requires !("http://" <= url) && !("https://" <= url)
    ensures DisplayUrl(url) == url
  {
  }

  const FaviconService := "https://www.google.com/s2/favicons?domain="
  const FaviconSize := "&sz=128"

  /**
   * `getFaviconUrl`. `hostname` stands for `new URL(url).hostname`, with
   * `None` where the URL constructor throws, in which case no icon is asked for.
   */
  function FaviconUrl(url: string, hostname: string -> Option<string>): (r: Option<string>)
    ensures r.None? <==> hostname(url).None?
    ensures r.Some? ==> r.value != "" && FaviconDomain(r.value) == hostname(url)
  {
    match hostname(url)
    case None => None
    case Some(h) =>
      var r := FaviconService + h + FaviconSize;
      assert r[..|FaviconService|] == FaviconService;
      assert r[|r| - |FaviconSize|..] == FaviconSize;
      assert r[|FaviconService|..|r| - |FaviconSize|] == h;
      Some(r)
  }

  /** Reads the domain back out of a favicon service address. */
  function FaviconDomain(s: string): Option<string> {
    if |s| >= |FaviconService| + |FaviconSize| && s[..|FaviconService|] == FaviconService
       && s[|s| - |FaviconSize|..] == FaviconSize
    then Some(s[|FaviconService|..|s| - |FaviconSize|])
    else None
  }

  predicate IsDigit(c: char) {
    '0' <= c <= '9'
  }

  function DigitChar(d: int): (c: char)
    requires 0 <= d < 10
    ensures IsDigit(c) && c as int - '0' as int == d
  {
    ('0' as int + d) as char
  }

  /** A non-negative JavaScript number rendered in decimal, as `{bookmarks.length}` does. */
  function Decimal(n: nat): (r: string)
    ensures |r| >= 1 && forall i :: 0 <= i < |r| ==> IsDigit(r[i])
    ensures r[0] == '0' ==> n == 0
  {
    if n < 10 then [DigitChar(n)] else Decimal(n / 10) + [DigitChar(n % 10)]
  }

  function ParseDecimal(s: string): nat
    requires forall i :: 0 <= i < |s| ==> IsDigit(s[i])
  {
    if s == [] then 0 else 10 * ParseDecimal(s[..|s| - 1]) + DigitValue(s[|s| - 1])
  }

  function DigitValue(c: char): (d: nat)
    requires IsDigit(c)
    ensures d < 10 && DigitChar(d) == c
  {
    assert c as int >= '0' as int;
    c as int - '0' as int
  }

  /** Reading the rendered digits back gives the number. */
  lemma {:induction false} DecimalRoundTrip(n: nat)
    ensures ParseDecimal(Decimal(n)) == n
  {
    if n >= 10 {
      DecimalRoundTrip(n / 10);
      var r := Decimal(n);
      assert r[..|r| - 1] == Decimal(n / 10);
    }
  }

  /** `bookmark` for exactly one, `bookmarks` otherwise (zero included). */
  function CountNoun(n: nat): string {
    if n == 1 then "bookmark" else "bookmarks"
  }

  /** The header line `{bookmarks.length} {noun} saved`. */
  function CountLabel(n: nat): string {
    Decimal(n) + " " + CountNoun(n) + " saved"
  }

  /** Different counts give different header lines. */
  lemma CountLabelInjective(m: nat, n: nat)
    requires CountLabel(m) == CountLabel(n)
    ensures m == n
  {
    var a, b := Decimal(m), Decimal(n);
    var l := CountLabel(m);
    assert l[|a|] == ' ';
    assert CountLabel(n)[|b|] == ' ';
    if |a| == |b| {
      assert a == l[..|a|] == b;
      DecimalRoundTrip(m);
      DecimalRoundTrip(n);
    }
  }

  /**
   * The header is singular exactly for one bookmark: `1 bookmark saved` and
   * no other count gives that line; every other count, zero included, ends
   * in `bookmarks saved`.
   */
  lemma CountLabelNoun(n: nat)
    ensures CountLabel(n) == "1 bookmark saved" <==> n == 1
    ensures n != 1 ==> |CountLabel(n)| >= 15 && CountLabel(n)[|CountLabel(n)| - 15..] == "bookmarks saved"
    ensures CountLabel(0) == "0 bookmarks saved"
  {
    assert CountLabel(1) == "1 bookmark saved";
    if CountLabel(n) == "1 bookmark saved" {
      CountLabelInjective(n, 1);
    }
  }
}
