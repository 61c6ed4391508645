/** Page-type dispatch by file extension and the two page views, rendered
    and raw (src/page.rs). */
module Page {
  import opened Errors
  import opened Utf8
  import opened MarkdownEvents

  /** A page as the core hands it out: its title and its body. */
  datatype Page = Page(title: string, body: string)

  datatype MarkupLanguage = Markdown

  /** `MarkupLanguage::file_extensions`. */
  function FileExtensions(lang: MarkupLanguage): seq<string>
  {
    match lang
    case Markdown => ["md"]
  }

  /** `MarkupLanguage::iter()`: every language, in declaration order. */
  const AllLanguages: seq<MarkupLanguage> := [Markdown]

  /** The first entry of `langs` whose extension list holds `ext`; the
      table walk of `get_language_for_file_extension`, stated for any table. */
  function FirstWithExtension<L>(langs: seq<L>, extensionsOf: L -> seq<string>, ext: string): (r: Option<L>)
    ensures r.None? <==> forall i :: 0 <= i < |langs| ==> ext !in extensionsOf(langs[i])
    ensures r.Some? ==> exists i :: && 0 <= i < |langs| && langs[i] == r.value
                                    && ext in extensionsOf(langs[i])
                                    && forall j :: 0 <= j < i ==> ext !in extensionsOf(langs[j])
  {
    if langs == [] then None
    else if ext in extensionsOf(langs[0]) then Some(langs[0])
    else
      var r := FirstWithExtension(langs[1..], extensionsOf, ext);
      assert r.Some? ==> exists i :: && 0 <= i < |langs| - 1 && langs[1..][i] == r.value
                                     && ext in extensionsOf(langs[1..][i])
                                     && forall j :: 0 <= j < i ==> ext !in extensionsOf(langs[1..][j]);
      r
  }

  /** The language `get_language_for_file_extension` picks. */
  function LanguageFor(ext: string): Option<MarkupLanguage>
  {
    FirstWithExtension(AllLanguages, FileExtensions, ext)
  }

  lemma {:induction false} FirstWithExtensionAt<L>(langs: seq<L>, extensionsOf: L -> seq<string>, i: nat, ext: string)
    requires i < |langs| && ext in extensionsOf(langs[i])
    requires forall j :: 0 <= j < i ==> ext !in extensionsOf(langs[j])
    ensures FirstWithExtension(langs, extensionsOf, ext) == Some(langs[i])
  {
    if i > 0 {
      FirstWithExtensionAt(langs[1..], extensionsOf, i - 1, ext);
    }
  }

  /** `get_language_for_file_extension`: the two nested loops over the
      languages and their extensions, returning at the first match. */
  method GetLanguageForFileExtension(fileExtension: string) returns (r: Option<MarkupLanguage>)
    ensures r == LanguageFor(fileExtension)
  {
    for li := 0 to |AllLanguages|
      invariant forall j :: 0 <= j < li ==> fileExtension !in FileExtensions(AllLanguages[j])
    {
      var lang := AllLanguages[li];
      var exts := FileExtensions(lang);
      for ei := 0 to |exts|
        invariant forall k :: 0 <= k < ei ==> exts[k] != fileExtension
      {
        if fileExtension == exts[ei] {
          FirstWithExtensionAt(AllLanguages, FileExtensions, li, fileExtension);
          return Some(lang);
        }
      }
    }
    return None;
  }

  /** `is_page`. */
  predicate IsPage(fileExtension: string)
  {
    LanguageFor(fileExtension).Some?
  }

  /** `MarkupLanguage::render`: title from the Markdown page, body the HTML
      of the events left after the title was taken out. */
  function Render(lang: MarkupLanguage, fileStem: string, fileContents: string, settings: Settings, md: MarkdownLib)
    : Result<Page>
    requires TitleExtractable(settings.h1Title, md.parse(fileContents))
  {
    match lang
    case Markdown =>
      var page := NewMarkdownPage(settings, fileStem, fileContents, md);
      Ok(Page(page.title, RenderHtml(page, md)))
  }

  /** `MarkupLanguage::raw`: the same title, body the text as given. */
  function Raw(lang: MarkupLanguage, fileStem: string, fileContents: string, settings: Settings, md: MarkdownLib)
    : Result<Page>
    requires TitleExtractable(settings.h1Title, md.parse(fileContents))
  {
    match lang
    case Markdown =>
      var page := NewMarkdownPage(settings, fileStem, fileContents, md);
      Ok(Page(page.title, fileContents))
  }

  /** What `get_page` and `get_raw_page` need from the parser so as not to
      panic: the bytes, once they are a page and decode, parse into events
      whose leading H1 (if any) is well formed. */
  predicate PageParsable(fileExtension: string, bytes: seq<byte>, settings: Settings, md: MarkdownLib)
  {
    IsPage(fileExtension) && Decode(bytes).Some? ==>
      TitleExtractable(settings.h1Title, md.parse(Decode(bytes).value))
  }

  /** `get_page`: the page rendered as HTML, None for a file that is not a page. */
  function GetPage(fileStem: string, fileExtension: string, bytes: seq<byte>, settings: Settings, md: MarkdownLib)
    : Result<Option<Page>>
    requires PageParsable(fileExtension, bytes, settings, md)
  {
    match LanguageFor(fileExtension)
    case None => Ok(None)
    case Some(lang) =>
      match Decode(bytes)
      case None => Err(BadUtf8)
      case Some(text) =>
        match Render(lang, fileStem, text, settings, md)
        case Err(e) => Err(e)
        case Ok(page) => Ok(Some(page))
  }

  /** `get_raw_page`: the page's title and unrendered text. */
  function GetRawPage(fileStem: string, fileExtension: string, bytes: seq<byte>, settings: Settings, md: MarkdownLib)
    : Result<Option<Page>>
    requires PageParsable(fileExtension, bytes, settings, md)
  {
    match LanguageFor(fileExtension)
    case None => Ok(None)
    case Some(lang) =>
      match Decode(bytes)
      case None => Err(BadUtf8)
      case Some(text) =>
        match Raw(lang, fileStem, text, settings, md)
        case Err(e) => Err(e)
        case Ok(page) => Ok(Some(page))
  }

  /** The extension table has one entry: "md" is Markdown, nothing else is a page. */
  lemma LanguageForIsMarkdownIffMd(ext: string)
    ensures LanguageFor(ext) == Some(Markdown) <==> ext == "md"
    ensures LanguageFor(ext) == None <==> ext != "md"
    ensures IsPage(ext) <==> ext == "md"
  {
    if ext == "md" {
      FirstWithExtensionAt(AllLanguages, FileExtensions, 0, ext);
    }
  }

  /** A file that is not a page yields Ok(None) from both views, whatever its
      bytes are: the bytes are never decoded, so invalid UTF-8 is no error. */
  lemma NonPageIgnoresBytes(fileStem: string, fileExtension: string, bytes: seq<byte>, settings: Settings, md: MarkdownLib)
    requires !IsPage(fileExtension)
    ensures PageParsable(fileExtension, bytes, settings, md)
    ensures GetPage(fileStem, fileExtension, bytes, settings, md) == Ok(None)
    ensures GetRawPage(fileStem, fileExtension, bytes, settings, md) == Ok(None)
  {
  }

  /** A page whose bytes are not UTF-8 fails both views with the UTF-8 error. */
  lemma PageRejectsBadUtf8(fileStem: string, fileExtension: string, bytes: seq<byte>, settings: Settings, md: MarkdownLib)
    requires IsPage(fileExtension) && Decode(bytes).None?
    ensures PageParsable(fileExtension, bytes, settings, md)
    ensures GetPage(fileStem, fileExtension, bytes, settings, md) == Err(BadUtf8)
    ensures GetRawPage(fileStem, fileExtension, bytes, settings, md) == Err(BadUtf8)
  {
  }

  /** For a page that decodes to `text`, both views succeed with the same
      title (the extracted H1 or the stem); the raw body is `text` itself and
      the rendered body is the HTML of the events that remain. */
  lemma PageViewsAgree(fileStem: string, fileExtension: string, bytes: seq<byte>, settings: Settings, md: MarkdownLib, text: string)
    requires IsPage(fileExtension) && Decode(bytes) == Some(text)
    requires TitleExtractable(settings.h1Title, md.parse(text))
    ensures PageParsable(fileExtension, bytes, settings, md)
    ensures var split := ExtractTitle(settings.h1Title, fileStem, md.parse(text));
      && GetRawPage(fileStem, fileExtension, bytes, settings, md) == Ok(Some(Page(split.title, text)))
      && GetPage(fileStem, fileExtension, bytes, settings, md) == Ok(Some(Page(split.title, md.pushHtml(split.remaining))))
  {
    LanguageForIsMarkdownIffMd(fileExtension);
  }

  /** `raw` and `render` agree on the title for the same stem, text and settings. */
  lemma RawAndRenderSameTitle(lang: MarkupLanguage, fileStem: string, fileContents: string, settings: Settings, md: MarkdownLib)
    requires TitleExtractable(settings.h1Title, md.parse(fileContents))
    ensures Raw(lang, fileStem, fileContents, settings, md).Ok?
    ensures Render(lang, fileStem, fileContents, settings, md).Ok?
    ensures Raw(lang, fileStem, fileContents, settings, md).value.title
         == Render(lang, fileStem, fileContents, settings, md).value.title
    ensures Raw(lang, fileStem, fileContents, settings, md).value.body == fileContents
  {
  }

  /** Text stored with `as_bytes` under a ".md" name comes back from
      `get_raw_page` with exactly that text as its body. */
  lemma RawPageOfWrittenText(fileStem: string, text: string, settings: Settings, md: MarkdownLib)
    requires TitleExtractable(settings.h1Title, md.parse(text))
    ensures PageParsable("md", Encode(text), settings, md)
    ensures GetRawPage(fileStem, "md", Encode(text), settings, md)
         == Ok(Some(Page(ExtractTitle(settings.h1Title, fileStem, md.parse(text)).title, text)))
  {
    DecodeOfEncode(text);
    LanguageForIsMarkdownIffMd("md");
  }
}
