/**
 * The text-to-speech service: voice configuration (`TtsConfig`), the service
 * record built from it (`TtsService`), the header it would prepend to the
 * audio, and its HTML-to-plain-text extraction. Speech synthesis itself is
 * external and not part of this model.
 */
module Tts {
  import opened Wrappers
  import opened Text
  import opened Html

  newtype u32 = x: int | 0 <= x < 0x1_0000_0000

  const EnglishVoice: string := "en_US-ryan-high"
  const RussianVoice: string := "ru_RU-ruslan-medium"
  const VoiceDir: string := "./assets/voices/"
  const DefaultSampleRate: u32 := 22050

  datatype TtsConfig = TtsConfig(
    voiceName: string,
    modelPath: string,
    voicePath: string,
    sampleRate: u32,
    language: string)

  datatype TtsError =
    | HtmlProcessingError(message: string)
    | PiperError(message: string)
    | IoError(message: string)
    | ModelError(message: string)

  datatype TtsService = TtsService(modelPath: string, configPath: string, config: TtsConfig)

  /** `./assets/voices/{voice}.onnx` */
  function ModelPathFor(voice: string): string {
    VoiceDir + voice + ".onnx"
  }

  /** `./assets/voices/{voice}.onnx.config` */
  function VoicePathFor(voice: string): string {
    VoiceDir + voice + ".onnx.config"
  }

  /** Both file paths of a configuration are derived from its voice name. */
  predicate PathsFollowVoice(c: TtsConfig) {
    c.modelPath == ModelPathFor(c.voiceName) && c.voicePath == VoicePathFor(c.voiceName)
  }

  /** The language tags that select the Russian voice; every other string selects English. */
  predicate SelectsRussian(language: string) {
    language == "ru" || language == "ru-RU"
  }

  /** `TtsConfig::default`: the English voice at 22050 Hz, tagged "en-US". */
  function DefaultConfig(): (c: TtsConfig)
    ensures PathsFollowVoice(c)
    ensures c.voiceName == EnglishVoice && c.sampleRate == 22050 && c.language == "en-US"
  {
    TtsConfig(EnglishVoice, ModelPathFor(EnglishVoice), VoicePathFor(EnglishVoice), DefaultSampleRate, "en-US")
  }

  /**
   * `TtsConfig::new`: paths derived from the voice name, and the language taken
   * as the part of the voice name before its first '-'.
   */
  function NewConfig(voiceName: string, sampleRate: u32): (c: TtsConfig)
    ensures c.voiceName == voiceName && c.sampleRate == sampleRate && PathsFollowVoice(c)
    ensures |c.language| <= |voiceName| && c.language == voiceName[..|c.language|]
    ensures '-' !in c.language
    ensures |c.language| == |voiceName| || voiceName[|c.language|] == '-'
  {
    TtsConfig(voiceName, ModelPathFor(voiceName), VoicePathFor(voiceName), sampleRate, UntilFirst(voiceName, '-'))
  }

  /**
   * `TtsConfig::from_language`: total; an exact match on "ru" or "ru-RU" picks
   * the Russian voice, anything else the English one, and the requested tag is
   * kept verbatim as the configuration's language.
   */
  function FromLanguage(language: string): (c: TtsConfig)
    ensures PathsFollowVoice(c) && c.sampleRate == 22050 && c.language == language
    ensures SelectsRussian(language) ==> c.voiceName == RussianVoice
    ensures !SelectsRussian(language) ==> c.voiceName == EnglishVoice
  {
    var voice := if SelectsRussian(language) then RussianVoice else EnglishVoice;
    TtsConfig(voice, ModelPathFor(voice), VoicePathFor(voice), DefaultSampleRate, language)
  }

  /** `TtsService::new`: never fails; the service loads its model through the config's `voice_path`. */
  function NewService(config: TtsConfig): (r: Result<TtsService, TtsError>)
    ensures r.Ok? && r.value.config == config
    ensures r.value.modelPath == config.modelPath && r.value.configPath == config.voicePath
  {
    Ok(TtsService(config.modelPath, config.voicePath, config))
  }

  /** `TtsService::with_language`: a fresh service for the language's voice; the receiver is not consulted. */
  function WithLanguage(service: TtsService, language: string): (r: Result<TtsService, TtsError>)
    ensures r.Ok? && r.value.config == FromLanguage(language)
    ensures r.value.configPath == VoicePathFor(r.value.config.voiceName)
    ensures r.value.modelPath == ModelPathFor(r.value.config.voiceName)
  {
    NewService(FromLanguage(language))
  }

  /** `TtsService::create_wav_header`: the synthesiser already writes a complete WAV file, so no header is added. */
  function CreateWavHeader(audioDataLen: nat): (header: seq<bv8>)
    ensures |header| == 0
  {
    []
  }

  /** The default configuration is exactly what `from_language("en-US")` builds. */
  lemma DefaultIsFromLanguage()
    ensures DefaultConfig() == FromLanguage("en-US")
  {
    assert !SelectsRussian("en-US");
  }

  /**
   * `from_language` builds the same configuration as `new` on the chosen voice
   * at 22050 Hz, except that it keeps the requested tag as the language where
   * `new` would take the voice name's prefix.
   */
  lemma FromLanguageIsNewConfig(language: string)
    ensures FromLanguage(language) == NewConfig(FromLanguage(language).voiceName, DefaultSampleRate).(language := language)
  {
  }

  /** `with_language` depends on the language only, never on the service it is called on. */
  lemma WithLanguageIgnoresReceiver(a: TtsService, b: TtsService, language: string)
    ensures WithLanguage(a, language) == WithLanguage(b, language)
  {
  }

  // ---------------------------------------------------------------------------
  // Text extraction

  /** The text nodes of the script/style elements, element by element, in document order. */
  function Flatten(elements: seq<seq<string>>): seq<string> {
    if elements == [] then [] else Flatten(elements[..|elements| - 1]) + elements[|elements| - 1]
  }

  /** The text after `text = text.replace(p, "")` for each `p` of `patterns` in turn. */
  function RemoveEach(text: string, patterns: seq<string>): string {
    if patterns == [] then text
    else RemoveAll(RemoveEach(text, patterns[..|patterns| - 1]), patterns[|patterns| - 1])
  }

  /**
   * The text before whitespace clean-up: the body's text nodes joined by " "
   * with every script/style text deleted wherever it occurs, or, without a
   * body, all the document's text joined by " " with nothing deleted.
   */
  function RawText(page: ParsedHtml): string {
    match page.body
    case Some(nodes) => RemoveEach(Join(nodes, " "), Flatten(page.scriptStyle))
    case None => Join(page.rootText, " ")
  }

  /**
   * `TtsService::extract_text_from_html`: joins the body text, deletes the
   * script/style texts one after the other, then collapses whitespace. The
   * result is normalised: single ' ' separators, nothing at either end.
   */
  method ExtractTextFromHtml(page: ParsedHtml) returns (text: string)
    ensures text == Normalize(RawText(page))
    ensures Normalized(text)
    ensures SplitWhitespace(text) == SplitWhitespace(RawText(page))
  {
    var raw: string;
    match page.body {
      case Some(nodes) =>
        var joined := Join(nodes, " ");
        raw := joined;
        var elements := page.scriptStyle;
        var i := 0;
        while i < |elements|
          invariant 0 <= i <= |elements|
          invariant raw == RemoveEach(joined, Flatten(elements[..i]))
        {
          var textNodes := elements[i];
          var j := 0;
          assert Flatten(elements[..i]) + textNodes[..0] == Flatten(elements[..i]);
          while j < |textNodes|
            invariant 0 <= j <= |textNodes|
            invariant raw == RemoveEach(joined, Flatten(elements[..i]) + textNodes[..j])
          {
            RemoveEachNext(joined, Flatten(elements[..i]), textNodes, j);
            raw := RemoveAll(raw, textNodes[j]);
            j := j + 1;
          }
          FlattenNext(elements, i);
          assert textNodes[..j] == textNodes;
          i := i + 1;
        }
        assert elements[..i] == elements;
      case None =>
        raw := Join(page.rootText, " ");
    }
    text := Trim(Join(SplitWhitespace(raw), " "));
    NormalizeSound(raw);
  }

  /** One more deletion extends the list of deleted patterns by one. */
  lemma RemoveEachNext(text: string, done: seq<string>, nodes: seq<string>, j: nat)
    requires j < |nodes|
    ensures RemoveEach(text, done + nodes[..j + 1]) == RemoveAll(RemoveEach(text, done + nodes[..j]), nodes[j])
  {
    assert (done + nodes[..j + 1])[..|done| + j] == done + nodes[..j];
  }

  /** The text nodes of the first i + 1 elements: those of the first i, then those of element i. */
  lemma FlattenNext(elements: seq<seq<string>>, i: nat)
    requires i < |elements|
    ensures Flatten(elements[..i + 1]) == Flatten(elements[..i]) + elements[i]
  {
    assert elements[..i + 1][..i] == elements[..i];
  }

  /** Script/style texts that occur nowhere in the joined body text leave it untouched. */
  lemma {:induction false} RemoveEachAbsent(text: string, patterns: seq<string>)
    requires forall k :: 0 <= k < |patterns| ==> patterns[k] != [] && NoOccurrenceBefore(text, patterns[k], |text|)
    ensures RemoveEach(text, patterns) == text
  {
    if patterns != [] {
      RemoveEachAbsent(text, patterns[..|patterns| - 1]);
      RemoveAllAbsent(text, patterns[|patterns| - 1]);
    }
  }

  /** Without a body, the whole document's text is used and script/style text is kept. */
  lemma NoBodyKeepsScripts(page: ParsedHtml)
    requires page.body.None?
    ensures RawText(page) == Join(page.rootText, " ")
  {
  }
}
