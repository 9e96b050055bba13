/** The header translator of excel-to-json.js: `translateToEnglish` and the
    pass of `excelToJson` that runs it over every header in order. The two
    translation libraries are one abstract, fallible function. */
module Translation {
  import opened Wrappers
  import opened Text

  /** A character of the CJK Unified Ideographs block, U+4E00..U+9FFF. Every
      such code point is one UTF-16 code unit, so testing code points agrees
      with the regular expression's test of code units. */
  predicate IsCjk(c: char) {
    '\U{4E00}' <= c <= '\U{9FFF}'
  }

  predicate HasCjk(s: string)
    ensures HasCjk(s) ==> s != []
  {
    exists i :: 0 <= i < |s| && IsCjk(s[i])
  }

  /** The regular expression finds a match anywhere: a concatenation holds a
      CJK ideograph exactly when one of its parts does. */
  lemma HasCjkAppend(a: string, b: string)
    ensures HasCjk(a + b) <==> HasCjk(a) || HasCjk(b)
  {
    if HasCjk(a + b) {
      var i :| 0 <= i < |a + b| && IsCjk((a + b)[i]);
      if i >= |a| {
        assert b[i - |a|] == (a + b)[i];
      }
    }
    if HasCjk(a) {
      var i :| 0 <= i < |a| && IsCjk(a[i]);
      assert (a + b)[i] == a[i];
    }
    if HasCjk(b) {
      var i :| 0 <= i < |b| && IsCjk(b[i]);
      assert (a + b)[|a| + i] == b[i];
    }
  }

  /** The two engines `translateToEnglish` can dispatch to. */
  datatype Engine = Vitalets | GoogleX

  /** The engine a tag selects; any other tag reaches the `default` branch
      that throws. */
  function EngineOf(tag: string): (e: Option<Engine>)
    ensures e == Some(Vitalets) <==> tag == "vitalets"
    ensures e == Some(GoogleX) <==> tag == "google-x"
  {
    if tag == "vitalets" then Some(Vitalets)
    else if tag == "google-x" then Some(GoogleX)
    else None
  }

  /** The external translation call, Chinese to English: the text it yields,
      or None when the call throws or yields no text. */
  type Translator = (Engine, string) -> Option<string>

  /** Drops the whitespace at the front of s. */
  function SkipSpaces(s: string): (r: string)
    ensures |r| <= |s|
    ensures r == [] || !IsSpace(r[0])
  {
    if s != [] && IsSpace(s[0]) then SkipSpaces(s[1..]) else s
  }

  /** `replace(/\s+/g, '_')`: each maximal run of whitespace becomes one `_`. */
  function CollapseSpaces(s: string): (r: string)
    ensures NoSpace(r)
    ensures |r| <= |s|
    decreases |s|
  {
    if s == [] then []
    else if IsSpace(s[0]) then "_" + CollapseSpaces(SkipSpaces(s[1..]))
    else [s[0]] + CollapseSpaces(s[1..])
  }

  /** What a successful translation is turned into: whitespace runs to `_`,
      then lower case. */
  function PostProcess(t: string): (r: string)
    ensures NoSpace(r)
    ensures |r| <= |t|
  {
    ToLowerKeepsNoSpace(CollapseSpaces(t));
    ToLower(CollapseSpaces(t))
  }

  /** Text without whitespace comes out of the replacement unchanged. */
  lemma {:induction false} CollapseSpacesKeepsSpaceFree(s: string)
    requires NoSpace(s)
    ensures CollapseSpaces(s) == s
  {
    if s != [] {
      assert !IsSpace(s[0]);
      assert NoSpace(s[1..]) by {
        forall i | 0 <= i < |s[1..]| ensures !IsSpace(s[1..][i]) { assert s[1..][i] == s[i + 1]; }
      }
      CollapseSpacesKeepsSpaceFree(s[1..]);
    }
  }

  /** A run of whitespace alone becomes a single `_`. */
  lemma {:induction false} CollapseSpacesOfRun(s: string)
    requires s != [] && forall i :: 0 <= i < |s| ==> IsSpace(s[i])
    ensures CollapseSpaces(s) == "_"
  {
    SkipSpacesOfRun(s[1..]);
  }

  lemma {:induction false} SkipSpacesOfRun(s: string)
    requires forall i :: 0 <= i < |s| ==> IsSpace(s[i])
    ensures SkipSpaces(s) == []
  {
    if s != [] {
      assert forall i :: 0 <= i < |s[1..]| ==> IsSpace(s[1..][i]) by {
        forall i | 0 <= i < |s[1..]| ensures IsSpace(s[1..][i]) { assert s[1..][i] == s[i + 1]; }
      }
      SkipSpacesOfRun(s[1..]);
    }
  }

  /** A whitespace run followed by text, or by nothing, becomes one `_` in
      front of that text's replacement: at the start, in the middle and at
      the end of a string alike. */
  lemma CollapseSpacesRunThen(run: string, t: string)
    requires run != [] && forall i :: 0 <= i < |run| ==> IsSpace(run[i])
    requires t == [] || !IsSpace(t[0])
    ensures CollapseSpaces(run + t) == "_" + CollapseSpaces(t)
  {
    assert (run + t)[1..] == run[1..] + t;
    SkipSpacesRunThen(run[1..], t);
  }

  lemma {:induction false} SkipSpacesRunThen(run: string, t: string)
    requires forall i :: 0 <= i < |run| ==> IsSpace(run[i])
    requires t == [] || !IsSpace(t[0])
    ensures SkipSpaces(run + t) == t
  {
    if run == [] {
      assert run + t == t;
    } else {
      assert (run + t)[1..] == run[1..] + t;
      assert forall i :: 0 <= i < |run[1..]| ==> run[1..][i] == run[i + 1];
      SkipSpacesRunThen(run[1..], t);
    }
  }

  /** Skipping the whitespace in front of a + b, when a holds a non-space
      character, skips within a alone. */
  lemma {:induction false} SkipSpacesAppend(a: string, b: string)
    requires exists i :: 0 <= i < |a| && !IsSpace(a[i])
    ensures SkipSpaces(a + b) == SkipSpaces(a) + b
  {
    if IsSpace(a[0]) {
      var i :| 0 <= i < |a| && !IsSpace(a[i]);
      assert i > 0;
      assert (a + b)[1..] == a[1..] + b;
      assert a[1..][i - 1] == a[i];
      SkipSpacesAppend(a[1..], b);
    }
  }

  /** The replacement works run by run: cutting the text after a non-space
      character cuts the result at the same place. */
  lemma {:induction false} CollapseSpacesAppend(a: string, b: string)
    requires a != [] ==> !IsSpace(a[|a| - 1])
    ensures CollapseSpaces(a + b) == CollapseSpaces(a) + CollapseSpaces(b)
    decreases |a|
  {
    if a == [] {
      assert a + b == b;
    } else if !IsSpace(a[0]) {
      assert (a + b)[1..] == a[1..] + b;
      CollapseSpacesAppend(a[1..], b);
    } else {
      assert |a| > 1;
      var rest := a[1..];
      assert (a + b)[1..] == rest + b;
      assert rest[|rest| - 1] == a[|a| - 1];
      SkipSpacesAppend(rest, b);
      var skipped := SkipSpaces(rest);
      SkipSpacesSuffix(rest);
      CollapseSpacesAppend(skipped, b);
    }
  }

  /** Skipping leading whitespace keeps the last character when that one is
      not whitespace. */
  lemma {:induction false} SkipSpacesSuffix(s: string)
    requires s != [] && !IsSpace(s[|s| - 1])
    ensures SkipSpaces(s) != [] && SkipSpaces(s)[|SkipSpaces(s)| - 1] == s[|s| - 1]
    ensures |SkipSpaces(s)| < |s| || SkipSpaces(s) == s
  {
    if IsSpace(s[0]) {
      assert |s| > 1;
      assert s[1..][|s[1..]| - 1] == s[|s| - 1];
      SkipSpacesSuffix(s[1..]);
    }
  }

  /** Post-processing is idempotent: its output is already normalised. */
  lemma PostProcessIdempotent(t: string)
    ensures PostProcess(PostProcess(t)) == PostProcess(t)
  {
    var once := PostProcess(t);
    CollapseSpacesKeepsSpaceFree(once);
    ToLowerIdempotent(CollapseSpaces(t));
  }

  /** A word, a run of whitespace and the rest: the word is kept and the run
      becomes one `_` in front of the rest's replacement. */
  lemma {:induction false} CollapseSpacesBetween(w: string, run: string, t: string)
    requires w != [] && NoSpace(w)
    requires run != [] && forall i :: 0 <= i < |run| ==> IsSpace(run[i])
    requires t == [] || !IsSpace(t[0])
    ensures CollapseSpaces(w + run + t) == w + "_" + CollapseSpaces(t)
  {
    var rest := run + t;
    assert w + run + t == w + rest;
    assert !IsSpace(w[|w| - 1]);
    CollapseSpacesAppend(w, rest);
    CollapseSpacesKeepsSpaceFree(w);
    CollapseSpacesRunThen(run, t);
    assert CollapseSpaces(w + rest) == w + ("_" + CollapseSpaces(t));
  }

  /** A translation such as "Date Of  Birth" becomes the key "date_of_birth":
      each run of spaces is one underscore and the capitals are lowered. */
  lemma PostProcessExample(date: string, of: string, birth: string)
    requires date == "Date" && of == "Of" && birth == "Birth"
    ensures PostProcess(date + " " + of + "  " + birth) == "date_of_birth"
  {
    CollapseSpacesKeepsSpaceFree(birth);
    CollapseSpacesBetween(of, "  ", birth);
    assert date + " " + of + "  " + birth == date + " " + (of + "  " + birth);
    CollapseSpacesBetween(date, " ", of + "  " + birth);
    assert ToLower("Date_Of_Birth") == "date_of_birth";
  }

  /** `translateToEnglish(text, engine)`: text with no CJK character is
      returned as it is; otherwise the engine's translation, post-processed;
      an unsupported engine tag or a failed call returns the text unchanged. */
  function TranslateToEnglish(translator: Translator, text: string, tag: string): (r: string)
    ensures !HasCjk(text) ==> r == text
    ensures EngineOf(tag) == None ==> r == text
    ensures r == text || (NoSpace(r) && PostProcess(r) == r)
  {
    if !HasCjk(text) then text
    else match EngineOf(tag)
      case None => text
      case Some(engine) =>
        match translator(engine, text)
        case None => text
        case Some(translated) =>
          PostProcessIdempotent(translated);
          PostProcess(translated)
  }

  /** A successful call of a supported engine on Chinese text yields the
      post-processed translation. */
  lemma TranslateSucceeds(translator: Translator, text: string, tag: string, engine: Engine, translated: string)
    requires HasCjk(text) && EngineOf(tag) == Some(engine) && translator(engine, text) == Some(translated)
    ensures TranslateToEnglish(translator, text, tag) == PostProcess(translated)
  {
  }

  /** A failed call is not fatal: the header keeps its original text. */
  lemma TranslateFailsOpen(translator: Translator, text: string, tag: string, engine: Engine)
    requires EngineOf(tag) == Some(engine) && translator(engine, text) == None
    ensures TranslateToEnglish(translator, text, tag) == text
  {
  }

  /** Plain ASCII headers are never sent to a translator. */
  lemma AsciiHeaderUnchanged(translator: Translator, text: string, tag: string)
    requires forall i :: 0 <= i < |text| ==> text[i] < '\U{80}'
    ensures TranslateToEnglish(translator, text, tag) == text
  {
  }

  /** The header list after the translation pass. */
  function TranslateAll(translator: Translator, headers: seq<string>, tag: string): (r: seq<string>)
    ensures |r| == |headers|
  {
    seq(|headers|, i requires 0 <= i < |headers| => TranslateToEnglish(translator, headers[i], tag))
  }

  /** The pass of excelToJson that translates the headers one at a time, in
      order, collecting the results in a new list. */
  method TranslateHeaders(translator: Translator, headers: seq<string>, tag: string) returns (translated: seq<string>)
    ensures |translated| == |headers|
    ensures forall i :: 0 <= i < |headers| ==> translated[i] == TranslateToEnglish(translator, headers[i], tag)
    ensures translated == TranslateAll(translator, headers, tag)
    ensures EngineOf(tag) == None ==> translated == headers
    ensures forall i :: 0 <= i < |headers| && !HasCjk(headers[i]) ==> translated[i] == headers[i]
    ensures forall i :: 0 <= i < |headers| ==>
      translated[i] == headers[i] || (NoSpace(translated[i]) && PostProcess(translated[i]) == translated[i])
  {
    translated := [];
    for k := 0 to |headers|
      invariant |translated| == k
      invariant forall i :: 0 <= i < k ==> translated[i] == TranslateToEnglish(translator, headers[i], tag)
    {
      var header := TranslateToEnglish(translator, headers[k], tag);
      translated := translated + [header];
    }
  }
}
