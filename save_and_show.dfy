/** How the modelled pieces meet when a page is saved and shown again: the
    request path names the file, the repository stores the text's bytes, and
    the raw page view reads them back. This module models no source file of
    its own. */
module SaveAndShow {
  import opened Errors
  import opened Utf8
  import opened MarkdownEvents
  import opened Page
  import opened Requests
  import opened Repository

  /** Saving a page at `dirs/stem.md` and reading it back gives the very text
      that was saved, with the title the H1 rule picks for it; nothing else on
      the disk reads differently. */
  lemma WrittenPageReadsBack(entries: map<Path, Entry>, root: Path, dirs: seq<string>, stem: string,
                             text: string, settings: Settings, md: MarkdownLib, other: Path)
    requires WriteFileSpec(entries, root, dirs + [stem + ".md"], text).0.Ok?
    requires root + other != root + (dirs + [stem + ".md"])
    requires TitleExtractable(settings.h1Title, md.parse(text))
    ensures var path := dirs + [stem + ".md"];
      var after := WriteFileSpec(entries, root, path, text).1;
      && WikiPagePath(path).FileName() == Some(stem)
      && WikiPagePath(path).FileExtension() == Some("md")
      && ReadFileSpec(after, root, path) == Ok(Encode(text))
      && PageParsable("md", Encode(text), settings, md)
      && GetRawPage(stem, "md", Encode(text), settings, md)
         == Ok(Some(Page(ExtractTitle(settings.h1Title, stem, md.parse(text)).title, text)))
      && ReadFileSpec(after, root, other) == ReadFileSpec(entries, root, other)
  {
    var path := dirs + [stem + ".md"];
    assert stem + "." + "md" == stem + ".md";
    ParsePagePath(dirs, stem, "md");
    WriteThenRead(entries, root, path, text, other);
    RawPageOfWrittenText(stem, text, settings, md);
  }
}
