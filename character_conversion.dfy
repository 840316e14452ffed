// Clean-up of HTML remnants in text (RDFer/CharacterConversionHelper.cs).
// The helper keeps a list of markup fragments ("cruft") and a routine
// meant to strip them and to fold the many spellings of an ampersand into
// one. Its ReplaceAll keeps only the replacement made for the LAST
// pattern of its list, so only the last fragment of each list has any
// effect; the model keeps that behaviour.

module CharacterConversion {
  import opened DotNet

  /** The elements whose tags, raw or entity-escaped, are cruft. */
  const CruftElements: seq<string> :=
    ["i", "b", "f", "tt", "sup", "supscrpt", "sub", "subscrpt", "inf", "italic", "bold", "inline-equation"]

  /** The processing-instruction remnants listed before the tags. */
  const PubMarks: seq<string> := ["&lt;?Pub Fmt italic&gt;", "&lt;?Pub Fmt /italic&gt;"]

  /** The spellings of an ampersand EntitiesToAccents lists, in order. */
  const Ampersands: seq<string> :=
    ["&amp;amp;", "&#x0026;", "&amp;#38;", "&#38;", "&amp;;", "&amp;", "&Amp;", "&AMP;", "&mp;", "\\&"]

  /** The four spellings of one element's tags. */
  function TagForms(e: string): (r: seq<string>)
    ensures |r| == 4 && r[3] == "&lt;/" + e + "&gt;"
  {
    ["<" + e + ">", "</" + e + ">", "&lt;" + e + "&gt;", "&lt;/" + e + "&gt;"]
  }

  function TagFormsOf(elements: seq<string>): seq<string>
  {
    if |elements| == 0 then []
    else TagFormsOf(elements[..|elements| - 1]) + TagForms(elements[|elements| - 1])
  }

  predicate NonEmptyPatterns(patterns: seq<string>)
  {
    forall i :: 0 <= i < |patterns| ==> |patterns[i]| > 0
  }

  /** The tag list has four non-empty entries per element, ending with the
      last element's escaped closing tag. */
  lemma {:induction false} TagFormsShape(elements: seq<string>)
    ensures |TagFormsOf(elements)| == 4 * |elements|
    ensures NonEmptyPatterns(TagFormsOf(elements))
    ensures |elements| > 0 ==> TagFormsOf(elements)[4 * |elements| - 1]
                               == "&lt;/" + elements[|elements| - 1] + "&gt;"
  {
    if |elements| > 0 {
      TagFormsShape(elements[..|elements| - 1]);
    }
  }

  /** The cruft list PopulateHtmlCruft builds. */
  function HtmlCruft(): seq<string>
  {
    PubMarks + TagFormsOf(CruftElements)
  }

  /** Fifty fragments, the last being the escaped closing inline-equation tag. */
  lemma HtmlCruftShape()
    ensures |HtmlCruft()| == 50 && NonEmptyPatterns(HtmlCruft())
    ensures HtmlCruft()[49] == "&lt;/inline-equation&gt;"
  {
    TagFormsShape(CruftElements);
  }

  /** What ReplaceAll returns: the input with the last pattern replaced, and
      "" for an empty pattern list. */
  function LastReplaced(patterns: seq<string>, with: string, inString: string): string
    requires NonEmptyPatterns(patterns)
  {
    if |patterns| == 0 then "" else Replace(inString, patterns[|patterns| - 1], with)
  }

  /** What EntitiesToAccents returns. */
  function EntitiesToAccentsOf(value: string): string
  {
    HtmlCruftShape();
    var stripped := LastReplaced(HtmlCruft(), "", value);
    if '&' in stripped then Replace(LastReplaced(Ampersands, "&", stripped), "&&", "&")
    else stripped
  }

  class CharacterConversionHelper {
    var htmlCruft: seq<string>

    ghost predicate Valid()
      reads this
    {
      htmlCruft == HtmlCruft()
    }

    constructor()
      ensures Valid()
    {
      htmlCruft := [];
      new;
      PopulateHtmlCruft();
    }

    method PopulateHtmlCruft()
      modifies this`htmlCruft
      ensures htmlCruft == old(htmlCruft) + HtmlCruft()
    {
      htmlCruft := htmlCruft + [PubMarks[0]];
      htmlCruft := htmlCruft + [PubMarks[1]];
      var elements := CruftElements;
      var i := 0;
      while i < |elements|
        invariant 0 <= i <= |elements|
        invariant htmlCruft == old(htmlCruft) + PubMarks + TagFormsOf(elements[..i])
      {
        var e := elements[i];
        assert elements[..i + 1][..i] == elements[..i];
        htmlCruft := htmlCruft + ["<" + e + ">"];
        htmlCruft := htmlCruft + ["</" + e + ">"];
        htmlCruft := htmlCruft + ["&lt;" + e + "&gt;"];
        htmlCruft := htmlCruft + ["&lt;/" + e + "&gt;"];
        i := i + 1;
      }
      assert elements[..i] == CruftElements;
    }

    /** ReplaceAll: each pattern's replacement is computed from the original
        string and overwrites the previous one. */
    method ReplaceAll(identifiedValues: seq<string>, with: string, inString: string) returns (r: string)
      requires NonEmptyPatterns(identifiedValues)
      ensures r == LastReplaced(identifiedValues, with, inString)
    {
      r := "";
      var i := 0;
      while i < |identifiedValues|
        invariant 0 <= i <= |identifiedValues|
        invariant r == LastReplaced(identifiedValues[..i], with, inString)
      {
        r := Replace(inString, identifiedValues[i], with);
        i := i + 1;
      }
      assert identifiedValues[..i] == identifiedValues;
    }

    method EntitiesToAccents(value: string) returns (r: string)
      requires Valid()
      ensures r == EntitiesToAccentsOf(value)
    {
      HtmlCruftShape();
      r := ReplaceAll(htmlCruft, "", value);
      if '&' in r {
        r := ReplaceAll(Ampersands, "&", r);
        r := Replace(r, "&&", "&");
      }
    }
  }

  /** Text without an ampersand comes back unchanged, markup included: the
      only fragment that is stripped, and the only ampersand spelling that
      is folded, both start with a character the text would need. */
  lemma NoAmpersandUnchanged(value: string)
    requires '&' !in value
    ensures EntitiesToAccentsOf(value) == value
  {
    HtmlCruftShape();
    var pattern := "&lt;/inline-equation&gt;";
    forall k | 0 <= k
      ensures !OccursAt(value, pattern, k)
    {
      if k + |pattern| <= |value| {
        assert value[k..k + |pattern|][0] == value[k];
      }
    }
    ReplaceAbsent(value, pattern, "");
  }

  /** Ampersands are folded in a single left-to-right pass: a run of three
      keeps two, and "&amp;" is left as it is. */
  lemma SinglePassFolding()
    ensures EntitiesToAccentsOf("&&&") == "&&"
    ensures EntitiesToAccentsOf("&amp;") == "&amp;"
  {
    HtmlCruftShape();
    assert LastReplaced(HtmlCruft(), "", "&&&") == "&&&";
    assert LastReplaced(HtmlCruft(), "", "&amp;") == "&amp;";
    assert Replace("&", "\\&", "&") == "&";
    assert Replace("&&", "\\&", "&") == "&&";
    assert Replace("&&&", "\\&", "&") == "&&&";
    assert Replace("&&&", "&&", "&") == "&&";
    assert Replace(";", "\\&", "&") == ";";
    assert Replace("p;", "\\&", "&") == "p;";
    assert Replace("mp;", "\\&", "&") == "mp;";
    assert Replace("&amp;", "\\&", "&") == "&amp;";
    assert Replace("p;", "&&", "&") == "p;";
    assert Replace("mp;", "&&", "&") == "mp;";
    assert Replace("amp;", "&&", "&") == "amp;";
    assert Replace("&amp;", "&&", "&") == "&amp;";
  }
}
