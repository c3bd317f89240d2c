/**
 * The text handed to the speech synthesiser and the voice it is asked for
 * (main.py:193-194): the summary loses its `*` and `#` characters, line
 * breaks become spaces, and at most 4500 characters are kept; Portuguese is
 * spoken with the Brazilian voice.
 */
module Speech {
  import opened PyStr

  /** The longest text sent to the synthesiser. */
  const MaxSpeechLength: nat := 4500

  /**
   * `summary.replace("*", "").replace("#", "").replace("\n", " ")`:
   * no `*`, `#` or line feed is left.
   */
  function CleanForSpeech(summary: string): (r: string)
    ensures '*' !in r && '#' !in r && '\n' !in r
  {
    var noStars := ReplaceAll(summary, "*", "");
    ReplaceAllRemoves(summary, '*', "");
    var noHashes := ReplaceAll(noStars, "#", "");
    ReplaceAllRemoves(noStars, '#', "");
    ReplaceAllRemoves(noHashes, '\n', " ");
    ReplaceAll(noHashes, "\n", " ")
  }

  /** What one character of the summary becomes in the spoken text. */
  function SpokenChar(c: char): string {
    if c == '*' || c == '#' then "" else if c == '\n' then " " else [c]
  }

  /** The clean-up stated character by character, independently of `replace`. */
  function Spoken(s: string): string
    decreases |s|
  {
    if s == "" then "" else SpokenChar(s[0]) + Spoken(s[1..])
  }

  /** The three replacements together treat each character on its own, as `Spoken` does. */
  lemma {:induction false} CleanForSpeechIsSpoken(s: string)
    ensures CleanForSpeech(s) == Spoken(s)
    decreases |s|
  {
    if s != "" {
      var c, rest := s[0], s[1..];
      assert s == [c] + rest;
      CleanForSpeechIsSpoken(rest);
      var a1, b1 := ReplaceAll([c], "*", ""), ReplaceAll(rest, "*", "");
      ReplaceCharConcat([c], rest, '*', "");
      var a2, b2 := ReplaceAll(a1, "#", ""), ReplaceAll(b1, "#", "");
      ReplaceCharConcat(a1, b1, '#', "");
      ReplaceCharConcat(a2, b2, '\n', " ");
      assert ReplaceAll(a2, "\n", " ") == SpokenChar(c);
    }
  }

  /** The clean-up works piece by piece. */
  lemma CleanForSpeechConcat(a: string, b: string)
    ensures CleanForSpeech(a + b) == CleanForSpeech(a) + CleanForSpeech(b)
  {
    ReplaceCharConcat(a, b, '*', "");
    var a1, b1 := ReplaceAll(a, "*", ""), ReplaceAll(b, "*", "");
    ReplaceCharConcat(a1, b1, '#', "");
    var a2, b2 := ReplaceAll(a1, "#", ""), ReplaceAll(b1, "#", "");
    ReplaceCharConcat(a2, b2, '\n', " ");
  }

  /** A summary with no `*`, `#` or line feed is spoken exactly as written. */
  lemma CleanForSpeechPlain(s: string)
    requires '*' !in s && '#' !in s && '\n' !in s
    ensures CleanForSpeech(s) == s
  {
    ReplaceAllNone(s, "*", "");
    ReplaceAllNone(s, "#", "");
    ReplaceAllNone(s, "\n", " ");
  }

  /**
   * `CleanForSpeech(summary)[:4500]`: a prefix of the cleaned summary, as
   * long as it or 4500 characters, whichever is shorter.
   */
  function SpeechText(summary: string): (r: string)
    ensures '*' !in r && '#' !in r && '\n' !in r
    ensures |r| <= MaxSpeechLength
    ensures r <= CleanForSpeech(summary)
    ensures |r| == if |CleanForSpeech(summary)| < MaxSpeechLength
                   then |CleanForSpeech(summary)| else MaxSpeechLength
  {
    var clean := CleanForSpeech(summary);
    if |clean| <= MaxSpeechLength then clean
    else
      assert forall c :: c in clean[..MaxSpeechLength] ==> c in clean;
      clean[..MaxSpeechLength]
  }

  /** A cleaned summary within the limit is spoken whole. */
  lemma SpeechTextWhole(summary: string)
    requires |Spoken(summary)| <= MaxSpeechLength
    ensures SpeechText(summary) == Spoken(summary)
  {
    CleanForSpeechIsSpoken(summary);
  }

  // ---------------------------------------------------------------------
  // Output languages and the synthesiser's voice
  // ---------------------------------------------------------------------

  /** An entry of the language menu: the caption shown, the code, and the name used in the prompt. */
  datatype Language = Language(caption: string, code: string, name: string)

  /** The language menu, in the order it is offered (main.py:123-130). */
  const Languages: seq<Language> := [
    Language("English", "en", "English"),
    Language("Spanish", "es", "Spanish"),
    Language("French", "fr", "French"),
    Language("German", "de", "German"),
    Language("Italian", "it", "Italian"),
    Language("Portuguese", "pt", "Portuguese")
  ]

  /**
   * The voice asked of the synthesiser: `"pt-br"` for `"pt"`, the code
   * itself otherwise; so the result is `"pt-br"` exactly for those two codes.
   */
  function TtsLang(code: string): (r: string)
    ensures r == "pt-br" <==> code == "pt" || code == "pt-br"
    ensures code != "pt" ==> r == code
  {
    if code == "pt" then "pt-br" else code
  }

  /**
   * Over the menu, the Brazilian voice is asked for exactly when Portuguese
   * is chosen, every other code is passed on as it is, and no two entries
   * share a voice.
   */
  lemma TtsLangOnMenu()
    ensures forall l :: l in Languages ==> (TtsLang(l.code) == "pt-br" <==> l.code == "pt")
    ensures forall l :: l in Languages && l.code != "pt" ==> TtsLang(l.code) == l.code
    ensures forall i, j :: 0 <= i < j < |Languages| ==>
      TtsLang(Languages[i].code) != TtsLang(Languages[j].code)
  {
  }
}
