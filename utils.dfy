/** The two helpers of `aigrep/utils.py`: the token counter and the code-fence extractor. */
module Utils {
  import opened Text

  /** The length of the tokenizer's encoding of a text; the tokenizer itself is foreign. */
  type Encoder = string -> nat

  /** `count_tokens`: whitespace-only text has no tokens, everything else is measured by the encoder. */
  function CountTokens(enc: Encoder, text: string): nat
  {
    if IsBlank(text) then 0 else enc(text)
  }

  /** `count_tokens` answers 0 exactly when `text.strip()` is empty, and otherwise the encoder's count. */
  lemma CountTokensStrips(enc: Encoder, text: string)
    ensures Strip(text) == [] ==> CountTokens(enc, text) == 0
    ensures Strip(text) != [] ==> CountTokens(enc, text) == enc(text)
  {
    StripEmptyIffBlank(text);
  }

  const Fence := "```"

  /** `s` holds no two distinct (possibly overlapping) fences. */
  predicate AtMostOneFence(s: string)
  {
    forall p, q :: 0 <= p <= |s| && 0 <= q <= |s| && OccursAt(s, Fence, p) && OccursAt(s, Fence, q) ==> p == q
  }

  /** What `extract_code_block` returns when no fenced span is found in `st`, the stripped
      `text`: the stripped text without its surrounding backticks if it starts or ends with
      one, else the text unchanged. */
  function Fallback(text: string, st: string): string
  {
    if (|st| > 0 && st[0] == '`') || (|st| > 0 && st[|st| - 1] == '`') then StripIn(st, {'`'})
    else text
  }

  /** One round of the search over the two prefixes: the first `prefix` in the lower-cased
      stripped text, if it lies before the last fence, opens the body that the last fence
      closes (Python's slice is empty when the two overlap). */
  function FencedBody(st: string, stlc: string, prefix: string): (r: Option<string>)
    requires |stlc| == |st|
    ensures r.Some? ==> exists c, d :: 0 <= c <= d <= |st| && r.value == st[c..d]
  {
    var i := Find(stlc, prefix);
    var j := RFind(stlc, Fence);
    if 0 <= i < j then
      var body := PySlice(st, i + |prefix|, j);
      assert body == st[if i + |prefix| < j then i + |prefix| else 0..if i + |prefix| < j then j else 0];
      Some(body)
    else None
  }

  /** `extract_code_block(text, format)`: the body of the first `format`-tagged (or else bare)
      fence up to the last fence, searched case-insensitively; else the text with its
      backticks stripped; else the text unchanged. */
  function ExtractCodeBlock(text: string, format: string): string
  {
    ExtractFrom(text, Strip(text), format)
  }

  /** The body of `extract_code_block` once `st = text.strip()` is computed. */
  function ExtractFrom(text: string, st: string, format: string): string
  {
    var stlc := Lower(st);
    match FencedBody(st, stlc, Fence + format)
    case Some(body) => body
    case None =>
      match FencedBody(st, stlc, Fence)
      case Some(body) => body
      case None => Fallback(text, st)
  }

  /** The result of the extraction is always a contiguous piece of the input text. */
  lemma ExtractIsSubstring(text: string, format: string)
    ensures exists a, b :: 0 <= a <= b <= |text| && ExtractCodeBlock(text, format) == text[a..b]
  {
    var a, b := ExtractSpan(text, format);
  }

  /** Where in the input the extracted text lies. */
  lemma ExtractSpan(text: string, format: string) returns (a: nat, b: nat)
    ensures a <= b <= |text| && ExtractCodeBlock(text, format) == text[a..b]
  {
    var st := Strip(text);
    var whole, c, d := ExtractFromSpan(text, st, format);
    if whole {
      assert text[0..|text|] == text;
      a, b := 0, |text|;
    } else {
      a, b := StripSlice(text, c, d);
    }
  }

  /** The extraction from `st` is the whole text or a slice of `st`. */
  lemma ExtractFromSpan(text: string, st: string, format: string) returns (whole: bool, c: nat, d: nat)
    ensures whole ==> ExtractFrom(text, st, format) == text
    ensures !whole ==> c <= d <= |st| && ExtractFrom(text, st, format) == st[c..d]
  {
    var stlc := Lower(st);
    whole := false;
    if FencedBody(st, stlc, Fence + format).Some? {
      c, d := BodySpan(st, stlc, Fence + format);
    } else if FencedBody(st, stlc, Fence).Some? {
      c, d := BodySpan(st, stlc, Fence);
    } else if (|st| > 0 && st[0] == '`') || (|st| > 0 && st[|st| - 1] == '`') {
      c, d := StripInSpan(st, {'`'});
    } else {
      whole, c, d := true, 0, 0;
    }
  }

  /** A slice of the stripped text is a slice of the text, shifted by the leading whitespace. */
  lemma StripSlice(text: string, c: nat, d: nat) returns (a: nat, b: nat)
    requires c <= d <= |Strip(text)|
    ensures a <= b <= |text| && Strip(text)[c..d] == text[a..b]
  {
    var lead := LeadingIn(text, Whitespace);
    var st := Strip(text);
    SliceOfSlice(text, lead, lead + |st|, c, d);
    a, b := lead + c, lead + d;
  }

  lemma StripInSpan(s: string, cs: set<char>) returns (c: nat, d: nat)
    ensures c <= d <= |s| && StripIn(s, cs) == s[c..d]
  {
    c := LeadingIn(s, cs);
    d := c + |StripIn(s, cs)|;
  }

  /** The bounds of a found body in the stripped text. */
  lemma BodySpan(st: string, stlc: string, prefix: string) returns (c: nat, d: nat)
    requires |stlc| == |st| && FencedBody(st, stlc, prefix).Some?
    ensures c <= d <= |st| && FencedBody(st, stlc, prefix).value == st[c..d]
  {
    var i := Find(stlc, prefix);
    var j := RFind(stlc, Fence);
    if i + |prefix| < j {
      c, d := i + |prefix|, j;
    } else {
      c, d := 0, 0;
    }
  }

  /** The search runs on the lower-cased stripped text: a `format`-tagged fence opening at
      its first occurrence `i` before the last fence `j` yields the original-case text between
      them (empty when they overlap), whatever the letter case of the tag. */
  lemma TaggedFenceFirst(text: string, format: string, i: nat, j: nat)
    requires var stlc := Lower(Strip(text));
      && OccursAt(stlc, Fence + format, i)
      && (forall k :: 0 <= k < i ==> !OccursAt(stlc, Fence + format, k))
      && OccursAt(stlc, Fence, j)
      && (forall k :: j < k ==> !OccursAt(stlc, Fence, k))
      && i < j
    ensures var st := Strip(text);
      ExtractCodeBlock(text, format) == if i + 3 + |format| < j then st[i + 3 + |format|..j] else []
  {
    TaggedFenceAt(text, Strip(text), format, i, j);
  }

  lemma TaggedFenceAt(text: string, st: string, format: string, i: nat, j: nat)
    requires var stlc := Lower(st);
      && OccursAt(stlc, Fence + format, i)
      && (forall k :: 0 <= k < i ==> !OccursAt(stlc, Fence + format, k))
      && OccursAt(stlc, Fence, j)
      && (forall k :: j < k ==> !OccursAt(stlc, Fence, k))
      && i < j
    ensures ExtractFrom(text, st, format) == if i + 3 + |format| < j then st[i + 3 + |format|..j] else []
  {
    var stlc := Lower(st);
    assert Find(stlc, Fence + format) == i;
    assert RFind(stlc, Fence) == j;
  }

  /** Without a tagged fence, the first bare fence before the last one delimits the body. */
  lemma BareFenceSecond(text: string, format: string, i: nat, j: nat)
    requires var stlc := Lower(Strip(text));
      && (forall k :: 0 <= k < j ==> !OccursAt(stlc, Fence + format, k))
      && OccursAt(stlc, Fence, i)
      && (forall k :: 0 <= k < i ==> !OccursAt(stlc, Fence, k))
      && OccursAt(stlc, Fence, j)
      && (forall k :: j < k ==> !OccursAt(stlc, Fence, k))
      && i < j
    ensures var st := Strip(text);
      ExtractCodeBlock(text, format) == if i + 3 < j then st[i + 3..j] else []
  {
    BareFenceAt(text, Strip(text), format, i, j);
  }

  lemma BareFenceAt(text: string, st: string, format: string, i: nat, j: nat)
    requires var stlc := Lower(st);
      && (forall k :: 0 <= k < j ==> !OccursAt(stlc, Fence + format, k))
      && OccursAt(stlc, Fence, i)
      && (forall k :: 0 <= k < i ==> !OccursAt(stlc, Fence, k))
      && OccursAt(stlc, Fence, j)
      && (forall k :: j < k ==> !OccursAt(stlc, Fence, k))
      && i < j
    ensures ExtractFrom(text, st, format) == if i + 3 < j then st[i + 3..j] else []
  {
    var stlc := Lower(st);
    assert Find(stlc, Fence + format) == -1 || Find(stlc, Fence + format) >= j;
    assert Find(stlc, Fence) == i;
    assert RFind(stlc, Fence) == j;
  }

  /** With at most one fence in the text (a lone fence finds itself as both first and last
      occurrence) no span is extracted and the backtick rule decides. */
  lemma SingleFenceFallsThrough(text: string, format: string)
    requires AtMostOneFence(Lower(Strip(text)))
    ensures ExtractCodeBlock(text, format) == Fallback(text, Strip(text))
  {
    SingleFenceAt(text, Strip(text), format);
  }

  lemma SingleFenceAt(text: string, st: string, format: string)
    requires AtMostOneFence(Lower(st))
    ensures ExtractFrom(text, st, format) == Fallback(text, st)
  {
    var stlc := Lower(st);
    var i := Find(stlc, Fence + format);
    var i' := Find(stlc, Fence);
    var j := RFind(stlc, Fence);
    if 0 <= i < j {
      assert stlc[i..i + 3] == (Fence + format)[..3];
      assert OccursAt(stlc, Fence, i);
      assert false;
    }
    if 0 <= i' < j {
      assert false;
    }
  }

  /** When the stripped text neither starts nor ends with a backtick and has no fence pair,
      the input comes back unchanged, surrounding whitespace included. */
  lemma NoRuleKeepsText(text: string, format: string)
    requires AtMostOneFence(Lower(Strip(text)))
    requires var st := Strip(text); st == [] || (st[0] != '`' && st[|st| - 1] != '`')
    ensures ExtractCodeBlock(text, format) == text
  {
    var st := Strip(text);
    SingleFenceAt(text, st, format);
    assert Fallback(text, st) == text;
  }

  /** A string that neither starts nor ends with whitespace is its own `strip()`. */
  lemma StripUnpadded(s: string)
    requires s != [] && s[0] !in Whitespace && s[|s| - 1] !in Whitespace
    ensures Strip(s) == s
  {
    assert LeadingIn(s, Whitespace) == 0;
    assert TrailingDownTo(s, Whitespace, |s|) == |s|;
  }

  /** Inverse of fencing: a block opened with a lower-case tag and closed by a fence gives back
      exactly its body, whatever the body holds. */
  lemma FencedBodyRoundTrip(format: string, body: string)
    requires forall k :: 0 <= k < |format| ==> !('A' <= format[k] <= 'Z')
    ensures ExtractCodeBlock(Fence + format + body + Fence, format) == body
  {
    var text := Fence + format + body + Fence;
    var n := |text|;
    StripUnpadded(text);
    FencedRoundTripAt(format, body);
  }

  lemma FencedRoundTripAt(format: string, body: string)
    requires forall k :: 0 <= k < |format| ==> !('A' <= format[k] <= 'Z')
    ensures var text := Fence + format + body + Fence; ExtractFrom(text, text, format) == body
  {
    var text := Fence + format + body + Fence;
    var tagged := Fence + format;
    var n := |text|;
    var stlc := Lower(text);
    assert stlc[..|tagged|] == tagged by {
      forall k | 0 <= k < |tagged| ensures stlc[k] == tagged[k] {
        if k >= 3 {
          assert text[k] == format[k - 3];
        }
      }
    }
    assert OccursAt(stlc, tagged, 0);
    assert stlc[n - 3..] == Fence;
    TaggedFenceAt(text, text, format, 0, n - 3);
    assert text[|tagged|..n - 3] == body;
  }

  /** The model's answer for a json-fenced reply: the tagged fence yields the lines between the
      fences, newlines included. */
  lemma JsonFenceExample()
    ensures ExtractCodeBlock("```json\n{\"a\":1}\n```", "json") == "\n{\"a\":1}\n"
  {
    assert "```json\n{\"a\":1}\n```" == Fence + "json" + "\n{\"a\":1}\n" + Fence;
    FencedBodyRoundTrip("json", "\n{\"a\":1}\n");
  }
}
