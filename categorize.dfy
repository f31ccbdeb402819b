/** The classifier adapter (backend/categorize.js): the fixed taxonomy, the
    numbered list embedded in the prompt, the normaliser that coerces any raw
    classifier value to a taxonomy entry, the fence stripper applied to the
    reply, and `categorizeTags`, which never fails: an empty batch is not sent,
    a failed call or unparsable reply gives every tag the fallback category. */
module Categorize {
  import opened Strings
  import opened JsValues

  // ---------------------------------------------------------------------------
  // Taxonomy
  // ---------------------------------------------------------------------------

  /** The thirteen categories, in prompt order (1-based numbers in the prompt). */
  const Categories: seq<string> := [
    "Tempo & Meter",
    "Era / Time-Period Vibe",
    "Core Genre Family",
    "Sub-Genre & Fusion Styles",
    "Instrumentation & Sound Sources",
    "Vocal Characteristics",
    "Mood / Emotion",
    "Production & Mix Aesthetics",
    "Rhythmic & Structural Traits",
    "Cultural / Regional Flavor",
    "Language & Lyrical Context",
    "Themes & Imagery",
    "Miscellaneous / Meta"
  ]

  /** The universal fallback category. */
  const Fallback: string := "Miscellaneous / Meta"

  /** The target of the one fuzzy rule for free-text replies. */
  const LyricalCategory: string := "Language & Lyrical Context"

  /** The fallback is the last taxonomy entry and the fuzzy rule's target is the
      eleventh, so both are members of the taxonomy. */
  lemma TaxonomyShape()
    ensures |Categories| == 13
    ensures Categories[|Categories| - 1] == Fallback && Fallback in Categories
    ensures Categories[10] == LyricalCategory && LyricalCategory in Categories
    ensures NoDuplicates(Categories)
    ensures "" !in Categories
  {
  }

  // ---------------------------------------------------------------------------
  // The numbered list embedded in the prompt
  // ---------------------------------------------------------------------------

  /** `names.map((cat, index) => `${index + 1}. ${cat}`)`: line `i` (0-based) is
      the numeral of `i + 1`, ". " and the `i`-th name. */
  function Numbered(names: seq<string>): (r: seq<string>)
    ensures |r| == |names|
  {
    seq(|names|, i requires 0 <= i < |names| => Decimal(i + 1) + ". " + names[i])
  }

  /** The numbered taxonomy joined with newlines, as shown to the classifier. */
  function NumberedList(): string
  {
    Join(Numbered(Categories), '\n')
  }

  /** Numbering a non-empty list of names that hold no newline gives lines that
      hold none, so splitting the joined list gives the lines back. (An empty
      list joins to "", which splits into one empty line.) */
  lemma NumberedSplitsBack(names: seq<string>)
    requires names != []
    requires forall i :: 0 <= i < |names| ==> '\n' !in names[i]
    ensures Split(Join(Numbered(names), '\n'), '\n') == Numbered(names)
    ensures forall i :: 0 <= i < |names| ==>
              Split(Join(Numbered(names), '\n'), '\n')[i] == Decimal(i + 1) + ". " + names[i]
  {
    var lines := Numbered(names);
    assert !IsDigit('\n');
    forall i | 0 <= i < |lines| ensures '\n' !in lines[i] {
      assert lines[i] == Decimal(i + 1) + ". " + names[i];
      assert '\n' !in Decimal(i + 1);
    }
    SplitJoin(lines, '\n');
  }

  /** No category name spans two lines. */
  lemma NoNewlineInCategories()
    ensures forall i :: 0 <= i < |Categories| ==> '\n' !in Categories[i]
  {
    forall i | 0 <= i < |Categories| ensures '\n' !in Categories[i] {
      NoNewlineInCategory(i);
    }
  }


  /** Checked in three index ranges, because one quantifier over all thirteen
      literals is too costly for the solver. */
  lemma NoNewlineInCategory(i: nat)
    requires i < |Categories|
    ensures '\n' !in Categories[i]
  {
    if i < 4 {
      assert forall k :: 0 <= k < |Categories[i]| ==> Categories[i][k] != '\n';
    } else if i < 8 {
      NoNewlineInLaterCategory(i);
    } else {
      NoNewlineInLastCategories(i);
    }
  }

  lemma NoNewlineInLaterCategory(i: nat)
    requires 4 <= i < 8
    ensures '\n' !in Categories[i]
  {
    assert forall k :: 0 <= k < |Categories[i]| ==> Categories[i][k] != '\n';
  }

  lemma NoNewlineInLastCategories(i: nat)
    requires 8 <= i < |Categories|
    ensures '\n' !in Categories[i]
  {
    assert forall k :: 0 <= k < |Categories[i]| ==> Categories[i][k] != '\n';
  }

  /** Splitting the numbered list at its newlines gives one line per category,
      line `i` reading "`i+1`. `Categories[i]`". */
  lemma NumberedListLines()
    ensures |Split(NumberedList(), '\n')| == |Categories|
    ensures forall i :: 0 <= i < |Categories| ==>
              Split(NumberedList(), '\n')[i] == Decimal(i + 1) + ". " + Categories[i]
  {
    NoNewlineInCategories();
    NumberedSplitsBack(Categories);
  }

  /** The number the prompt shows in front of a category, read back and passed to
      the normaliser, gives that category again. */
  lemma NumberedLineRoundTrip(i: nat)
    requires i < |Categories|
    ensures DecimalValue(Decimal(i + 1)) == i + 1
    ensures NormalizeCategory(Num(DecimalValue(Decimal(i + 1)))) == Categories[i]
  {
    DecimalRoundTrip(i + 1);
  }

  // ---------------------------------------------------------------------------
  // Normaliser
  // ---------------------------------------------------------------------------

  /** `normalizeCategory`: a number 1..13 picks that entry; a string whose
      lower-cased form contains "lyrical" picks the lyrical category; anything
      else falls back. Total: it never fails and always yields an entry. */
  function NormalizeCategory(raw: JsValue): (r: string)
    ensures r in Categories
    ensures raw.Num? && 1 <= raw.n <= |Categories| ==> r == Categories[raw.n - 1]
  {
    if raw.Num? && 1 <= raw.n <= |Categories| then Categories[raw.n - 1]
    else if raw.Str? && Contains(Lower(raw.s), "lyrical") then LyricalCategory
    else Fallback
  }

  /** A string reply is mapped to the lyrical category exactly when it mentions
      "lyrical" in any letter case, and to the fallback otherwise. */
  lemma NormalizeString(s: string)
    ensures Contains(Lower(s), "lyrical") ==> NormalizeCategory(Str(s)) == LyricalCategory
    ensures !Contains(Lower(s), "lyrical") ==> NormalizeCategory(Str(s)) == Fallback
  {
  }

  /** Letter case does not matter for string replies. */
  lemma NormalizeIgnoresCase(s: string, t: string)
    requires Lower(s) == Lower(t)
    ensures NormalizeCategory(Str(s)) == NormalizeCategory(Str(t))
  {
  }

  /** Out-of-range numbers and every value that is neither a number nor a string
      fall back. */
  lemma NormalizeOtherwiseFallsBack(raw: JsValue)
    requires !raw.Str?
    requires raw.Num? ==> raw.n < 1 || raw.n > |Categories|
    ensures NormalizeCategory(raw) == Fallback
  {
  }

  /** Every entry of the taxonomy is the image of exactly one in-range number. */
  lemma NormalizeNumbersBijective(m: int, n: int)
    requires 1 <= m <= |Categories| && 1 <= n <= |Categories|
    ensures NormalizeCategory(Num(m)) == NormalizeCategory(Num(n)) <==> m == n
  {
    TaxonomyShape();
  }

  /** The worked example: the classifier's 7 is "Mood / Emotion". */
  lemma NormalizeExampleNumber()
    ensures NormalizeCategory(Num(7)) == "Mood / Emotion"
    ensures NormalizeCategory(Num(14)) == Fallback && NormalizeCategory(Num(0)) == Fallback
  {
    assert NormalizeCategory(Num(7)) == Categories[6];
    assert Categories[6] == "Mood / Emotion";
  }

  /** "lyrical" anywhere in the lower-cased reply, with any text around it and in
      any letter case, selects the lyrical category. */
  lemma NormalizeLyricalAnywhere(s: string, before: string, after: string)
    requires Lower(s) == before + "lyrical" + after
    ensures NormalizeCategory(Str(s)) == LyricalCategory
  {
    ContainsInfix(before, "lyrical", after);
    NormalizeString(s);
  }

  /** A text contains whatever was placed inside it. */
  lemma ContainsInfix(before: string, needle: string, after: string)
    ensures Contains(before + needle + after, needle)
  {
    var hay := before + needle + after;
    assert hay[|before|..] == needle + after;
    ContainsFrom(hay, |before|, needle);
  }

  /** An occurrence found after dropping a prefix is an occurrence. */
  lemma {:induction false} ContainsFrom(hay: string, k: nat, needle: string)
    requires k <= |hay|
    requires Contains(hay[k..], needle)
    ensures Contains(hay, needle)
  {
    if k > 0 {
      assert hay[1..][k - 1..] == hay[k..];
      ContainsFrom(hay[1..], k - 1, needle);
    }
  }

  // ---------------------------------------------------------------------------
  // Fence stripping
  // ---------------------------------------------------------------------------

  /** `s.replace(/pat/g, "")`: every occurrence, found left to right without
      overlap, removed. */
  function RemoveAll(s: string, pat: string): (r: string)
    requires pat != []
    ensures |r| <= |s|
    decreases |s|
  {
    if pat <= s then RemoveAll(s[|pat|..], pat)
    else if s == [] then []
    else [s[0]] + RemoveAll(s[1..], pat)
  }

  /** ECMAScript white space and line terminators, which `trim` removes. */
  predicate IsSpace(c: char)
  {
    c == '\t' || c == '\n' || c == '\U{0B}' || c == '\U{0C}' || c == '\r' || c == ' ' ||
    c == '\U{A0}' || c == '\U{1680}' || ('\U{2000}' <= c <= '\U{200A}') ||
    c == '\U{2028}' || c == '\U{2029}' || c == '\U{202F}' || c == '\U{205F}' ||
    c == '\U{3000}' || c == '\U{FEFF}'
  }

  function TrimStart(s: string): (r: string)
    ensures |r| <= |s| && r == s[|s| - |r|..]
    ensures forall i :: 0 <= i < |s| - |r| ==> IsSpace(s[i])
    ensures r == [] || !IsSpace(r[0])
  {
    if s != [] && IsSpace(s[0]) then TrimStart(s[1..]) else s
  }

  function TrimEnd(s: string): (r: string)
    ensures |r| <= |s| && r == s[..|r|]
    ensures forall i :: |r| <= i < |s| ==> IsSpace(s[i])
    ensures r == [] || !IsSpace(r[|r| - 1])
  {
    if s != [] && IsSpace(s[|s| - 1]) then TrimEnd(s[..|s| - 1]) else s
  }

  /** `s.trim()`. */
  function Trim(s: string): string
  {
    TrimEnd(TrimStart(s))
  }

  const Fence: string := "```"

  /** The cleaning chain applied to the reply text before parsing. */
  function StripFences(text: string): string
  {
    Trim(RemoveAll(RemoveAll(text, "```json"), Fence))
  }

  /** If `s` does not start with a backtick, removal keeps its first character. */
  lemma RemoveFenceKeepsHead(s: string)
    requires s != [] && s[0] != '`'
    ensures RemoveAll(s, Fence) != [] && RemoveAll(s, Fence)[0] == s[0]
  {
  }

  /** After removing every "```", none is left: the removal cannot join two
      backtick runs into a new fence. */
  lemma {:induction false} RemoveFenceLeavesNone(s: string)
    ensures !Contains(RemoveAll(s, Fence), Fence)
  {
    var r := RemoveAll(s, Fence);
    if Fence <= s {
      RemoveFenceLeavesNone(s[3..]);
    } else if s != [] {
      var rest := RemoveAll(s[1..], Fence);
      RemoveFenceLeavesNone(s[1..]);
      assert r == [s[0]] + rest && r[1..] == rest;
      if s[0] == '`' && |s| >= 2 {
        if s[1] != '`' {
          RemoveFenceKeepsHead(s[1..]);
        } else {
          // s starts with two backticks but not three.
          assert !(Fence <= s[1..]);
          assert rest == [s[1]] + RemoveAll(s[2..], Fence);
          if |s| >= 3 {
            assert s[2] != '`';
            RemoveFenceKeepsHead(s[2..]);
          }
        }
      }
    }
  }

  lemma {:induction false} ContainsPrefixOf(s: string, m: nat, needle: string)
    requires m <= |s|
    requires Contains(s[..m], needle)
    ensures Contains(s, needle)
  {
    if needle <= s[..m] {
    } else {
      assert s[..m][1..] == s[1..][..m - 1];
      ContainsPrefixOf(s[1..], m - 1, needle);
    }
  }

  /** The cleaned text holds no "```" at all. */
  lemma StripFencesLeavesNoFence(text: string)
    ensures !Contains(StripFences(text), Fence)
  {
    var removed := RemoveAll(RemoveAll(text, "```json"), Fence);
    RemoveFenceLeavesNone(RemoveAll(text, "```json"));
    var start := TrimStart(removed);
    if Contains(start, Fence) {
      ContainsFrom(removed, |removed| - |start|, Fence);
    }
    var trimmed := TrimEnd(start);
    if Contains(trimmed, Fence) {
      ContainsPrefixOf(start, |trimmed|, Fence);
    }
  }

  /** Text without backticks is untouched by either removal. */
  lemma {:induction false} RemoveAllWithoutBacktick(s: string, pat: string)
    requires pat != [] && pat[0] == '`' && '`' !in s
    ensures RemoveAll(s, pat) == s
  {
    if s != [] {
      RemoveAllWithoutBacktick(s[1..], pat);
      assert s == [s[0]] + s[1..];
    }
  }

  /** Text without backticks passes through a removal unchanged, whatever follows it. */
  lemma {:induction false} RemoveAllConcatPlain(p: string, pat: string, q: string)
    requires pat != [] && pat[0] == '`' && '`' !in p
    ensures RemoveAll(p + q, pat) == p + RemoveAll(q, pat)
  {
    if p == [] {
      assert p + q == q;
    } else {
      var s := p + q;
      assert s[0] == p[0] && p[0] != pat[0];
      assert !(pat <= s);
      assert s[1..] == p[1..] + q;
      assert RemoveAll(s, pat) == [p[0]] + RemoveAll(p[1..] + q, pat);
      assert '`' !in p[1..] by {
        assert p == [p[0]] + p[1..];
      }
      RemoveAllConcatPlain(p[1..], pat, q);
      assert p == [p[0]] + p[1..];
    }
  }

  /** A reply fenced as a markdown JSON block is handed to the parser as the
      block's body, trimmed. */
  lemma StripFencesUnwraps(p: string)
    requires '`' !in p
    ensures StripFences("```json" + p + "```") == Trim(p)
  {
    var text := "```json" + p + Fence;
    assert text[|"```json"|..] == p + Fence;
    assert RemoveAll(Fence, "```json") == Fence by {
      assert Fence[1..] == "``" && "``"[1..] == "`" && "`"[1..] == [];
    }
    RemoveAllConcatPlain(p, "```json", Fence);
    assert RemoveAll(text, "```json") == p + Fence;
    RemoveAllConcatPlain(p, Fence, Fence);
    assert RemoveAll(Fence, Fence) == [] by {
      assert Fence[3..] == [];
    }
    assert p + [] == p;
  }

  /** A reply without markdown fences is only trimmed. */
  lemma StripFencesOnPlainText(text: string)
    requires '`' !in text
    ensures StripFences(text) == Trim(text)
  {
    RemoveAllWithoutBacktick(text, "```json");
    RemoveAllWithoutBacktick(text, Fence);
  }

  // ---------------------------------------------------------------------------
  // categorizeTags
  // ---------------------------------------------------------------------------

  /** What the external service call produced: its reply text, or an error
      (unreachable, timed out, refused, no key, ...). */
  datatype ServiceReply = Responded(text: string) | ServiceFailed

  /** The result of one `categorizeTags` call: no call at all for an empty batch,
      the normalised reply, or the all-fallback mapping. */
  datatype Categorization =
    | NotRequested
    | Classified(mapping: map<string, string>)
    | FellBack(mapping: map<string, string>)
  {
    /** The object `categorizeTags` returns. */
    function Mapping(): map<string, string>
    {
      if NotRequested? then map[] else mapping
    }
  }

  /** The reply object as `JSON.parse` yields it after cleaning; `parse` stands for
      `JSON.parse` followed by enumerating the result's keys with `for ... in`,
      `None` for a thrown `SyntaxError`. */
  function ParsedReply(reply: ServiceReply, parse: string -> Option<map<string, JsValue>>):
    Option<map<string, JsValue>>
  {
    if reply.Responded? then parse(StripFences(reply.text)) else None
  }

  /** The category one tag of a non-empty batch ends up with once the server
      looks it up in the returned object (`categorizedTags[tag] || fallback`),
      given the parsed reply (`None` when the call or the parse failed). */
  function ClassifiedCategory(tag: string, parsed: Option<map<string, JsValue>>): (r: string)
    ensures r in Categories
  {
    match parsed
    case Some(obj) => if tag in obj then NormalizeCategory(obj[tag]) else Fallback
    case None => Fallback
  }

  /** The success branch's loop: every key of the reply object, its value normalised. */
  method NormalizeReply(obj: map<string, JsValue>) returns (data: map<string, string>)
    ensures data.Keys == obj.Keys
    ensures forall tag :: tag in data ==> data[tag] == NormalizeCategory(obj[tag])
  {
    data := map[];
    var pending := obj.Keys;
    while pending != {}
      invariant pending <= obj.Keys
      invariant data.Keys == obj.Keys - pending
      invariant forall tag :: tag in data ==> data[tag] == NormalizeCategory(obj[tag])
      decreases pending
    {
      var tag :| tag in pending;
      data := data[tag := NormalizeCategory(obj[tag])];
      pending := pending - {tag};
    }
  }

  /** The failure branch's loop: every input tag mapped to the fallback. */
  method FallbackFor(tags: seq<string>) returns (data: map<string, string>)
    ensures data.Keys == set tag | tag in tags
    ensures forall tag :: tag in data ==> data[tag] == Fallback
  {
    data := map[];
    var i := 0;
    while i < |tags|
      invariant 0 <= i <= |tags|
      invariant data.Keys == set tag | tag in tags[..i]
      invariant forall tag :: tag in data ==> data[tag] == Fallback
    {
      assert tags[..i + 1] == tags[..i] + [tags[i]];
      data := data[tags[i] := Fallback];
      i := i + 1;
    }
    assert tags[..i] == tags;
  }

  /** `categorizeTags(tags)`, with the service's reply and the JSON parser as
      parameters. */
  method CategorizeTags(tags: seq<string>, reply: ServiceReply,
                        parse: string -> Option<map<string, JsValue>>)
    returns (r: Categorization)
    ensures r.NotRequested? <==> tags == []
    ensures r.NotRequested? ==> r.Mapping() == map[]
    ensures tags != [] && ParsedReply(reply, parse).Some? ==>
              && r.Classified?
              && r.mapping.Keys == ParsedReply(reply, parse).value.Keys
              && forall tag :: tag in r.mapping ==>
                   r.mapping[tag] == NormalizeCategory(ParsedReply(reply, parse).value[tag])
    ensures tags != [] && ParsedReply(reply, parse).None? ==>
              && r.FellBack?
              && r.mapping.Keys == (set tag | tag in tags)
              && forall tag :: tag in r.mapping ==> r.mapping[tag] == Fallback
    ensures forall tag :: tag in r.Mapping() ==> r.Mapping()[tag] in Categories
  {
    if |tags| == 0 {
      return NotRequested;
    }
    match ParsedReply(reply, parse)
    case Some(obj) =>
      var data := NormalizeReply(obj);
      r := Classified(data);
    case None =>
      var data := FallbackFor(tags);
      TaxonomyShape();
      r := FellBack(data);
  }

  /** When the call or the parse fails, every tag of the batch ends up in the
      fallback category. */
  lemma FailureGivesFallback(tag: string, reply: ServiceReply,
                             parse: string -> Option<map<string, JsValue>>)
    requires ParsedReply(reply, parse).None?
    ensures ClassifiedCategory(tag, ParsedReply(reply, parse)) == Fallback
  {
  }
}
