/**
 * The "google {search terms}" command: from typed or selected text to a
 * search URL opened in the browser, or to a message explaining why not.
 *
 * The environment is passed in: the current selection as the dictionary
 * `selection.get()` returns, the language code `locale.getdefaultlocale()`
 * reports, and `urllib.quote_plus` applied to the UTF-8 encoding of the text
 * as an uninterpreted function `quote`.
 */
module Google {
  import opened Results
  import Text

  const MaxQueryLength: nat := 2048
  const BaseUrlHead: string := "http://www.google.com/search?hl="
  const BaseUrlMid: string := "&q="
  const NoTextMsg: string := "<p>No text was selected.</p>"
  const TooLongMsg: string := "<p>Your query is too long.</p>"
  const GenericDescription: string := "Performs a Google web search on the selected or typed text."

  /** What running the command does. */
  datatype Outcome = DisplayMessage(message: string) | OpenUrl(url: string)

  /** A `GoogleCommand`: its optional parameter and the description set on it, if any. */
  datatype GoogleCommand = GoogleCommand(parameter: Option<string>, description: Option<string>)

  const DescriptionHead: string := "Performs a Google web search for "

  /** The description of a search: the head, the parameter in curly quotes, then a full stop. */
  function SearchDescription(parameter: string): (d: string)
    ensures |d| == |DescriptionHead| + |parameter| + 3
    ensures DescriptionHead <= d && d[|DescriptionHead|] == '“'
    ensures d[|DescriptionHead| + 1..|d| - 2] == parameter
    ensures d[|d| - 2..] == ['”', '.']
  {
    DescriptionHead + ['“'] + parameter + ['”'] + "."
  }

  /** Different parameters give different descriptions. */
  lemma SearchDescriptionInjective(p: string, q: string)
    requires SearchDescription(p) == SearchDescription(q)
    ensures p == q
  {
    var d := SearchDescription(p);
    assert p == d[|DescriptionHead| + 1..|d| - 2];
  }

  /** `GoogleCommand.__init__`: a description is set only when a parameter is given. */
  function NewGoogleCommand(parameter: Option<string>): (c: GoogleCommand)
    ensures c.parameter == parameter
    ensures c.description.Some? <==> parameter.Some?
    ensures parameter.Some? ==> c.description == Some(SearchDescription(parameter.value))
  {
    GoogleCommand(parameter, if parameter.Some? then Some(SearchDescription(parameter.value)) else None)
  }

  /** `GoogleCommandFactory._generateCommandObj`. */
  function GenerateCommandObj(postfix: string): (c: GoogleCommand)
    ensures |postfix| > 0 ==> c.parameter == Some(postfix) && c.description == Some(SearchDescription(postfix))
    ensures |postfix| == 0 ==> c.parameter == None && c.description == Some(GenericDescription)
  {
    if |postfix| > 0 then NewGoogleCommand(Some(postfix))
    else NewGoogleCommand(None).(description := Some(GenericDescription))
  }

  /** `languageCode.split("_")[0]`: everything before the first underscore. */
  function BeforeUnderscore(code: string): (r: string)
    ensures r <= code && '_' !in r
    ensures |r| < |code| ==> code[|r|] == '_'
  {
    if |code| == 0 then []
    else if code[0] == '_' then []
    else [code[0]] + BeforeUnderscore(code[1..])
  }

  /** The `hl` value: the locale's language part, or "en" when no code is reported. */
  function Language(languageCode: Option<string>): (r: string)
    ensures languageCode.None? || languageCode.value == [] ==> r == "en"
    ensures languageCode.Some? && languageCode.value != [] ==>
      && r <= languageCode.value && '_' !in r
      && (|r| < |languageCode.value| ==> languageCode.value[|r|] == '_')
  {
    if languageCode.Some? && |languageCode.value| > 0 then BeforeUnderscore(languageCode.value)
    else "en"
  }

  /** A locale code `lang_REGION` gives `lang`; the split stops at the first underscore. */
  lemma {:induction false} LanguageOfLocale(lang: string, rest: string)
    requires '_' !in lang
    ensures BeforeUnderscore(lang + "_" + rest) == lang
    decreases |lang|
  {
    if |lang| == 0 {
      assert (lang + "_" + rest)[0] == '_';
    } else {
      assert (lang + "_" + rest)[1..] == lang[1..] + "_" + rest;
      assert '_' !in lang[1..];
      LanguageOfLocale(lang[1..], rest);
    }
  }

  /** `BASE_URL % (language, quotedText)`. */
  function Query(language: string, quoted: string): (q: string)
    ensures |q| == |BaseUrlHead| + |language| + |BaseUrlMid| + |quoted|
    ensures BaseUrlHead <= q
    ensures q[|BaseUrlHead|..|BaseUrlHead| + |language|] == language
    ensures q[|BaseUrlHead| + |language|..|q| - |quoted|] == BaseUrlMid
    ensures q[|q| - |quoted|..] == quoted
  {
    BaseUrlHead + language + BaseUrlMid + quoted
  }

  /** The text to search for: the parameter, else the selection's "text" entry, else empty. */
  function SearchText(parameter: Option<string>, selection: map<string, string>): (t: string)
    ensures parameter.Some? ==> t == parameter.value
    ensures parameter.None? && "text" in selection ==> t == selection["text"]
    ensures parameter.None? && "text" !in selection ==> t == []
  {
    if parameter.Some? then parameter.value
    else if "text" in selection then selection["text"]
    else []
  }

  /** `GoogleCommand.run`. */
  function Run(c: GoogleCommand, selection: map<string, string>, languageCode: Option<string>,
               quote: string -> string): (o: Outcome)
    ensures var text := Text.Strip(SearchText(c.parameter, selection));
            && (o == DisplayMessage(NoTextMsg) <==> |text| == 0)
            && (o.OpenUrl? <==> |text| > 0 && |Query(Language(languageCode), quote(text))| <= MaxQueryLength)
            && (o.OpenUrl? ==> o.url == Query(Language(languageCode), quote(text)))
            && (o == DisplayMessage(TooLongMsg) <==>
                |text| > 0 && |Query(Language(languageCode), quote(text))| > MaxQueryLength)
  {
    var text := Text.Strip(SearchText(c.parameter, selection));
    if |text| == 0 then DisplayMessage(NoTextMsg)
    else
      var finalQuery := Query(Language(languageCode), quote(text));
      if |finalQuery| > MaxQueryLength then DisplayMessage(TooLongMsg)
      else OpenUrl(finalQuery)
  }

  /**
   * A command made for a typed postfix searches for that postfix and ignores
   * the selection; one made without a postfix searches the selection.
   */
  lemma TypedTextTakesPrecedence(postfix: string, sel1: map<string, string>, sel2: map<string, string>,
                                 languageCode: Option<string>, quote: string -> string)
    ensures |postfix| > 0 ==>
      Run(GenerateCommandObj(postfix), sel1, languageCode, quote)
      == Run(GenerateCommandObj(postfix), sel2, languageCode, quote)
    ensures |postfix| == 0 && "text" !in sel1 ==>
      Run(GenerateCommandObj(postfix), sel1, languageCode, quote) == DisplayMessage(NoTextMsg)
  {
    if |postfix| == 0 && "text" !in sel1 {
      assert Text.Strip([]) == [];
    }
  }

  /**
   * Surrounding whitespace never reaches the query: padding the typed text
   * with whitespace opens the same URL or shows the same message.
   */
  lemma PaddingIsIgnored(a: string, t: string, b: string, selection: map<string, string>,
                         languageCode: Option<string>, quote: string -> string)
    requires Text.AllSpace(a) && Text.AllSpace(b)
    ensures Run(GoogleCommand(Some(a + t + b), None), selection, languageCode, quote)
         == Run(GoogleCommand(Some(t), None), selection, languageCode, quote)
  {
    Text.StripIgnoresPadding(a, t, b);
  }

  /** A locale such as "fr_FR" yields an "hl=fr" query. */
  lemma LocaleLanguageInQuery(lang: string, region: string, quoted: string)
    requires '_' !in lang && |lang| > 0
    ensures Query(Language(Some(lang + "_" + region)), quoted) == BaseUrlHead + lang + BaseUrlMid + quoted
  {
    LanguageOfLocale(lang, region);
  }
}
