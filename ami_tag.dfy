/** `parse_ami`: the image identifier is the text of the catalogue's
    `<a href="...">ami-...</a>` cell, taken between the first `>` and the
    last `<`. */
module AmiTag {
  import opened Wrappers

  /** `str::find` with a character: the first position of `c`. */
  function Find(s: string, c: char): (r: Option<nat>)
    ensures r.None? <==> c !in s
    ensures r.Some? ==> r.value < |s| && s[r.value] == c && c !in s[..r.value]
    ensures r.Some? ==> forall m :: 0 <= m < r.value ==> s[m] != c
  {
    if s == [] then None
    else if s[0] == c then Some(0)
    else match Find(s[1..], c)
      case None => None
      case Some(k) =>
        assert s[..k + 1] == [s[0]] + s[1..][..k];
        Some(k + 1)
  }

  /** `str::rfind` with a character: the last position of `c`. */
  function RFind(s: string, c: char): (r: Option<nat>)
    ensures r.None? <==> c !in s
    ensures r.Some? ==> r.value < |s| && s[r.value] == c && c !in s[r.value + 1..]
    ensures r.Some? ==> forall m :: r.value < m < |s| ==> s[m] != c
  {
    if s == [] then None
    else if s[|s| - 1] == c then Some(|s| - 1)
    else
      assert s == s[..|s| - 1] + [s[|s| - 1]];
      match RFind(s[..|s| - 1], c)
      case None => None
      case Some(k) =>
        assert s[k + 1..] == s[..|s| - 1][k + 1..] + [s[|s| - 1]];
        Some(k)
  }

  /** A position holding `c` with no `c` before it is what `Find` returns. */
  lemma FindAt(s: string, c: char, i: nat)
    requires i < |s| && s[i] == c
    requires forall m :: 0 <= m < i ==> s[m] != c
    ensures Find(s, c) == Some(i)
  {
  }

  /** A position holding `c` with no `c` after it is what `RFind` returns. */
  lemma RFindAt(s: string, c: char, j: nat)
    requires j < |s| && s[j] == c
    requires forall m :: j < m < |s| ==> s[m] != c
    ensures RFind(s, c) == Some(j)
  {
  }

  /** The slice `a_tag[start + 1..end]` panics unless the first `>` comes
      before the last `<`; it is in bounds whenever a delimiter is missing,
      since then no slice is taken. */
  predicate SliceInBounds(a: string)
  {
    match (Find(a, '>'), RFind(a, '<'))
    case (Some(i), Some(j)) => i < j
    case _ => true
  }

  /** `id` is the text strictly between the first `>` and the last `<` of
      `a`. */
  ghost predicate TagText(a: string, id: string)
  {
    exists i, j :: 0 <= i < j < |a| && a[i] == '>' && a[j] == '<'
                  && (forall m :: 0 <= m < i ==> a[m] != '>')
                  && (forall m :: j < m < |a| ==> a[m] != '<')
                  && id == a[i + 1..j]
  }

  function ParseAmi(a: string): (r: Option<string>)
    requires SliceInBounds(a)
    ensures r.None? <==> '>' !in a || '<' !in a
    ensures r.Some? ==> TagText(a, r.value)
  {
    match Find(a, '>')
    case None => None
    case Some(start) =>
      match RFind(a, '<')
      case None => None
      case Some(end) => Some(a[start + 1..end])
  }

  /** `parse_ami` finds exactly the text between the delimiters. */
  lemma ParseAmiIff(a: string, id: string)
    requires SliceInBounds(a)
    ensures ParseAmi(a) == Some(id) <==> TagText(a, id)
  {
    if TagText(a, id) {
      var i, j :| 0 <= i < j < |a| && a[i] == '>' && a[j] == '<'
                  && (forall m :: 0 <= m < i ==> a[m] != '>')
                  && (forall m :: j < m < |a| ==> a[m] != '<')
                  && id == a[i + 1..j];
      FindAt(a, '>', i);
      RFindAt(a, '<', j);
    }
  }

  /** The shape of the catalogue's cell, as in the comment at the head of
      `parse_ami`. */
  function Anchor(href: string, id: string): string
  {
    "<a href=\"" + href + "\">" + id + "</a>"
  }

  /** Extracting from an anchor gives back its text, whatever the text holds,
      as long as the link target has no `>`. */
  lemma ParseAnchor(href: string, id: string)
    requires '>' !in href
    ensures SliceInBounds(Anchor(href, id))
    ensures ParseAmi(Anchor(href, id)) == Some(id)
  {
    var a := Anchor(href, id);
    var open := "<a href=\"" + href + "\"";
    var i := |open|;
    var j := i + 1 + |id|;
    assert a == open + ">" + id + "</a>";
    assert a[i] == '>';
    assert a[..i] == open;
    assert '>' !in open;
    forall m | 0 <= m < i ensures a[m] != '>' {
      assert a[m] == a[..i][m];
    }
    FindAt(a, '>', i);
    assert a[j] == '<' && a[j + 1..] == "/a>";
    forall m | j < m < |a| ensures a[m] != '<' {
      assert a[m] == a[j + 1..][m - j - 1];
    }
    RFindAt(a, '<', j);
    assert a[i + 1..j] == id;
  }

  /** The link target and text of the example in the comment at the head
      of `parse_ami`. The target is written in pieces so that
      `ParseDocExample` can show that it holds no `>` one short literal at a
      time. */
  const DocHref: string := "https://console.aws" + ".amazon.com/ec2/" + "home?region=" + "us-east-1#"
                           + "launchAmi=" + "ami-085925" + "f297f89fce1"
  const DocId: string := "ami-085925f297f89fce1"

  /** The example in the source's comment yields its identifier. */
  lemma ParseDocExample()
    ensures SliceInBounds(Anchor(DocHref, DocId))
    ensures ParseAmi(Anchor(DocHref, DocId)) == Some("ami-085925f297f89fce1")
  {
    assert '>' !in "https://console.aws";
    assert '>' !in ".amazon.com/ec2/";
    assert '>' !in "home?region=";
    assert '>' !in "us-east-1#";
    assert '>' !in "launchAmi=";
    assert '>' !in "ami-085925";
    assert '>' !in "f297f89fce1";
    ParseAnchor(DocHref, DocId);
  }

  /** Markup that lacks either delimiter gives no identifier. */
  lemma ParseWithoutDelimiters(a: string)
    requires '>' !in a || '<' !in a
    ensures SliceInBounds(a) && ParseAmi(a) == None
  {
  }

  /** Adjacent delimiters give the empty identifier, not a failure. */
  lemma AdjacentDelimitersEmpty()
    ensures SliceInBounds("><") && ParseAmi("><") == Some("")
  {
    assert Find("><", '>') == Some(0);
    assert RFind("><", '<') == Some(1);
  }

  /** `"<>"`: the first `>` follows the last `<`, so the slice would panic. */
  lemma ReversedDelimitersPanic()
    ensures !SliceInBounds("<>")
  {
    assert Find("<>", '>') == Some(1);
    assert RFind("<>", '<') == Some(0);
  }
}
