# smeagol core, modelled in Dafny

smeagol is a small wiki server. It keeps its pages as Markdown files in a
directory tree. This project models the core of an early version of smeagol:

- `requests.dfy` (module `Requests`) models the request path of a page.
  That is its directories, file name and extension, its breadcrumbs and its
  display form.
- `markdown_events.dfy` (module `MarkdownEvents`) models the Markdown event
  stream and the H1-title rule. With `h1_title` on, a leading H1 heading
  becomes the page title and is removed from the body.
- `page.dfy` (module `Page`) models the extension-to-language table and the
  rendered and raw views of a page.
- `repository.dfy` (module `Repository`) models the filesystem repository.
  That is path validation, read, write, directory probes and listing over an
  abstract disk, plus the order of listing items and repository creation.
- `utf8.dfy` (module `Utf8`) holds the UTF-8 encoder and decoder of RFC 3629.
  It stands in for `str::as_bytes` and `str::from_utf8`.
- `save_and_show.dfy` (module `SaveAndShow`) ties these together. A page
  saved through the repository reads back as the same text. This module models
  no source file of its own; `src/wiki.rs` is not part of this model.

The Markdown parser (pulldown_cmark) and its HTML writer are foreign code.
They enter as the two functions of a `MarkdownLib` value. What
`std::fs::canonicalize` answers enters as a parameter.

Mutable state is modelled with classes:
- `EventVec` is the event vector that `try_get_h1_title` drains in place.
- `Disk` is the filesystem.
- `FileSystemRepository` is the repository object.

Each method is proved equal to a specification function, and the lemmas
state the properties of those functions.

`src/requests.rs:24-61` is a line-for-line copy of `src/page.rs:13-50`
(`try_get_h1_title` and `MarkdownPage::new`). Both copies are modelled once,
by the `MarkdownEvents` members.

## Model

| member | source | states |
|---|---|---|
| Requests.WikiPagePath.Directories | src/requests.rs:123-128 | the directories are the path minus its last segment (empty for the empty path): appending the last segment gives the path back |
| Requests.WikiPagePath.FileNameAndExtension | src/requests.rs:130-133 | no contract of its own; its properties are in FileNameAndExtensionSplitsLast and ParsePagePath |
| Requests.WikiPagePath.FileName | src/requests.rs:135-137 | no contract of its own; FileNameAndExtensionSplitsLast states it is the stem of `file_name_and_extension` |
| Requests.WikiPagePath.FileExtension | src/requests.rs:139-141 | no contract of its own; FileNameAndExtensionSplitsLast states it is the extension of `file_name_and_extension` |
| Requests.RSplitOnce | src/requests.rs:132 | no contract of its own; its properties are in RSplitOnceSplits and RSplitOnceOfJoin |
| Requests.DirectoriesOfPath | src/requests.rs:123-128 | for any directories and file segment, `directories` of `dirs/file` is exactly `dirs` |
| Requests.LastIndexOf | src/requests.rs:130-133 | the index found holds the separator, no later index does, and there is none exactly when the separator does not occur |
| Requests.RSplitOnceSplits | src/requests.rs:130-133 | `rsplit_once('.')` is None exactly when there is no '.'; otherwise stem + "." + extension is the segment and the extension holds no '.' |
| Requests.RSplitOnceOfJoin | src/requests.rs:130-133 | joining a stem and a '.'-free extension around '.' splits back into that stem and extension |
| Requests.FileNameAndExtensionSplitsLast | src/requests.rs:130-141 | `file_name_and_extension` is None exactly for the empty path or a last segment without '.'; otherwise it splits the last segment at its last '.', and `file_name`/`file_extension` are its two parts (None when it is None) |
| Requests.ParsePagePath | src/requests.rs:356-376 | a request for `dirs/stem.ext` with a '.'-free extension parses into those directories, that stem and that extension, as the unit tests expect |
| Requests.WikiPagePath.CreateBreadcrumbs | src/requests.rs:143-154 | one breadcrumb per directory, outermost first; crumb i is named after directory i and links to the path of directories 0 through i |
| Requests.Reversed | src/requests.rs:152 | the reversed list has the same length and holds element n-1-i at position i |
| Requests.WikiPagePath.Fmt | src/requests.rs:166-177 | the text written is the display form: "/" for the empty path, else "/" before each segment |
| Requests.DisplayForm | src/requests.rs:166-177 | no contract of its own; its properties are in DisplayFormRoundTrip and DisplayFormExtends, and Fmt is proved to write it |
| Requests.SlashIndex | src/requests.rs:166-177 | the first '/' of a string, or its length when it has none |
| Requests.DisplayFormRoundTrip | src/requests.rs:166-177 | reading a routable path's display form back gives its segments, so the display form determines the path; it is exactly "/" for the empty path |
| Requests.DisplayFormExtends | src/requests.rs:166-177 | every display form starts with "/", and one more segment appends "/" and that segment |
| MarkdownEvents.FirstEndH1 | src/page.rs:20-23 | the position found is an End(H1) with none before it; None means no End(H1) at all |
| MarkdownEvents.TryGetH1Title | src/page.rs:13-36 | the title returned and the events left in the vector are the split `ExtractTitle` defines for the original events |
| MarkdownEvents.ExtractTitle | src/page.rs:13-36 | no contract of its own; its properties are in ExtractTitleFallback, ExtractTitleRemovesHeading and ExtractTitleOfHeading, and TryGetH1Title is proved to compute it |
| MarkdownEvents.ConcatText | src/page.rs:24-30 | no contract of its own; ExtractTitleOfHeading states that it joins the texts in order |
| MarkdownEvents.NewMarkdownPage | src/page.rs:39-50 | no contract of its own; PageViewsAgree and RawAndRenderSameTitle state the title and events it keeps |
| MarkdownEvents.RenderHtml | src/page.rs:56-60 | no contract of its own; PageViewsAgree states that the rendered body is the HTML of the events left after the title |
| MarkdownEvents.ExtractTitleFallback | src/page.rs:13-36 | the events are left untouched exactly when the guard fails (setting off, fewer than two events, or no leading Start(H1)), and then the title is the file stem |
| MarkdownEvents.ExtractTitleRemovesHeading | src/page.rs:19-32 | when the guard holds, the title is the concatenated text between Start(H1) and the first End(H1), and the events are that heading followed by what is left, in order |
| MarkdownEvents.TextEvents | src/page.rs:25-30 | the events built carry the given texts, one Text event each, in order |
| MarkdownEvents.ExtractTitleOfHeading | src/page.rs:186-194 | a leading H1 of Text events becomes the title, the texts concatenated, and whatever follows the heading is left untouched |
| Page.FirstWithExtension | src/page.rs:123-132 | the table walk returns the first language whose extensions hold the extension, and None exactly when no language does |
| Page.GetLanguageForFileExtension | src/page.rs:123-132 | the nested loops return the language the table walk picks |
| Page.FileExtensions | src/page.rs:75-82 | no contract of its own; LanguageForIsMarkdownIffMd states that "md" is Markdown's only extension |
| Page.AllLanguages | src/page.rs:69-72 | no contract of its own; the list `MarkupLanguage::iter()` walks at src/page.rs:124, whose lookup LanguageForIsMarkdownIffMd characterises |
| Page.LanguageFor | src/page.rs:123-132 | no contract of its own; its properties are in FirstWithExtension and LanguageForIsMarkdownIffMd |
| Page.IsPage | src/page.rs:168-170 | no contract of its own; LanguageForIsMarkdownIffMd states that it holds exactly for "md" |
| Page.Render | src/page.rs:84-100 | no contract of its own; its properties are in RawAndRenderSameTitle and PageViewsAgree |
| Page.Raw | src/page.rs:102-120 | no contract of its own; its properties are in RawAndRenderSameTitle and PageViewsAgree |
| Page.GetPage | src/page.rs:135-149 | no contract of its own; its properties are in NonPageIgnoresBytes, PageRejectsBadUtf8 and PageViewsAgree |
| Page.GetRawPage | src/page.rs:152-166 | no contract of its own; its properties are in NonPageIgnoresBytes, PageRejectsBadUtf8, PageViewsAgree and RawPageOfWrittenText |
| Page.LanguageForIsMarkdownIffMd | src/page.rs:69-82 | "md" maps to Markdown and every other extension to None, so `is_page` holds exactly for "md" |
| Page.NonPageIgnoresBytes | src/page.rs:135-170 | for an extension that is not a page, both views return Ok(None) whatever the bytes, even bytes that are not UTF-8 |
| Page.PageRejectsBadUtf8 | src/page.rs:135-166 | a page whose bytes are not UTF-8 fails both views with the UTF-8 error |
| Page.PageViewsAgree | src/page.rs:84-166 | for a page that decodes, both views succeed with the same extracted title; the raw body is the text and the rendered body is the HTML of the events left after the title |
| Page.RawAndRenderSameTitle | src/page.rs:84-120 | `raw` and `render` both succeed with the same title, and `raw` keeps the text as its body |
| Page.RawPageOfWrittenText | src/page.rs:152-166 | text stored as its UTF-8 bytes under the "md" extension comes back from `get_raw_page` as exactly that text |
| Utf8.EncodeChar | src/repository.rs:78 | a character encodes to 1 to 4 bytes, and to one byte exactly when its first byte is ASCII |
| Utf8.Encode | src/repository.rs:78 | the empty string exactly encodes to no bytes; its round trips are in DecodeOfEncode, EncodeOfDecode and EncodeInjective |
| Utf8.Decode | src/page.rs:145 | no contract of its own; its properties are in DecodeOfEncode, EncodeOfDecode and DecodeSucceedsIffEncoding |
| Utf8.DecodeOfEncode | src/page.rs:162 | decoding the UTF-8 bytes of any string gives that string |
| Utf8.EncodeOfDecode | src/page.rs:162 | bytes that decode are the encoding of the string they decode to |
| Utf8.DecodeSucceedsIffEncoding | src/page.rs:145 | bytes decode exactly when they are the UTF-8 encoding of some string |
| Utf8.EncodeInjective | src/repository.rs:10-14 | different strings have different UTF-8 encodings |
| Repository.PathElementOk | src/repository.rs:39-41 | an element is accepted exactly when it does not start with "." |
| Repository.FileSystemRepository.CanonicalizePath | src/repository.rs:49-63 | a relative path fails with the invalid-path error exactly when some element starts with "."; otherwise it resolves to the root followed by its elements |
| Repository.FileSystemRepository.ReadFile | src/repository.rs:67-73 | reading returns what the read specification gives for the current disk: the file's bytes, the invalid-path error, or an I/O error when the path is missing, a directory or another entry that is no regular file |
| Repository.ReadAt | src/repository.rs:69-71 | no contract of its own; WriteThenRead states that a written file reads back its bytes, and HiddenElementRejected that invalid paths never reach it |
| Repository.ReadFileSpec | src/repository.rs:67-73 | no contract of its own; its properties are in HiddenElementRejected and WriteThenRead, and ReadFile is proved to compute it |
| Repository.FileSystemRepository.WriteFile | src/repository.rs:75-81 | the result and the new disk are those of the write specification: a valid path where the file can be created (the parent directory exists and the target is absent or a regular file) gets the content's UTF-8 bytes; otherwise nothing changes; a tree-shaped disk stays tree-shaped |
| Repository.WriteFileSpec | src/repository.rs:75-81 | no contract of its own; its properties are in WriteFileOutcome, WriteThenRead, WritePreservesTree and HiddenElementRejected |
| Repository.FileSystemRepository.DirectoryExists | src/repository.rs:84-89 | answers as the directory-probe specification on the current disk |
| Repository.DirectoryExistsSpec | src/repository.rs:84-89 | no contract of its own; its properties are in DirectoryExistsNeverFails and HiddenElementRejected |
| Repository.FileSystemRepository.EnumerateFiles | src/repository.rs:91-115 | lists as the listing specification on the current disk: invalid path, I/O error for a non-directory, else the listing |
| Repository.EnumerateFilesSpec | src/repository.rs:91-115 | no contract of its own; its properties are in ListingContents and HiddenElementRejected |
| Repository.Classify | src/repository.rs:96-112 | no contract of its own; ListingContents states that it keeps exactly non-hidden files as File and directories as Directory |
| Repository.Listing | src/repository.rs:95-114 | no contract of its own; ListingContents states which items it holds |
| Repository.CreateRepository | src/repository.rs:118-133 | a root that does not canonicalize fails with the given path, a canonical root that is no directory fails with the canonical path, else a new repository at the canonical root over the same disk |
| Repository.HiddenElementRejected | src/repository.rs:49-115 | a path with a hidden element is refused by read, write and listing without touching the disk, and `directory_exists` answers false |
| Repository.DirectoryExistsNeverFails | src/repository.rs:84-89 | `directory_exists` always succeeds, and is true exactly for a valid path naming a directory |
| Repository.WriteThenRead | src/repository.rs:67-89 | after a successful write, the path reads back as the content's UTF-8 bytes, and every other path reads and probes as before |
| Repository.CanCreate | src/repository.rs:77 | no contract of its own; WriteFileOutcome states that a write succeeds exactly on valid paths where it holds |
| Repository.WriteFileOutcome | src/repository.rs:75-81 | a write succeeds exactly when the path is valid and the file can be created (the parent directory exists and the target is absent or a regular file), and a failed write changes nothing |
| Repository.WritePreservesTree | src/repository.rs:75-81 | a disk shaped as a tree stays a tree after any write |
| Repository.ListingContents | src/repository.rs:91-115 | the listing holds exactly the non-hidden immediate children, files as File and directories as Directory, and no name in it starts with "." |
| Repository.CompareBytesEqual | src/repository.rs:10 | byte strings compare Equal exactly when they are equal |
| Repository.CompareBytesReverse | src/repository.rs:10 | swapping the operands reverses the comparison |
| Repository.CompareBytesTransitive | src/repository.rs:10 | Less is transitive |
| Repository.CompareBytes | src/repository.rs:10 | no contract of its own; its properties are in CompareBytesEqual, CompareBytesReverse and CompareBytesTransitive |
| Repository.CompareItems | src/repository.rs:10-14 | no contract of its own; its properties are in DirectoriesBeforeFiles and ItemOrderIsTotal |
| Repository.DirectoriesBeforeFiles | src/repository.rs:10-14 | every Directory orders before every File |
| Repository.ItemOrderIsTotal | src/repository.rs:10-14 | the derived order on items is a total order: Equal only for equal items, antisymmetric, and Less is transitive |
| SaveAndShow.WrittenPageReadsBack | src/repository.rs:67-81 | a page saved at `dirs/stem.md` is named `stem` with extension "md", reads back as the text's bytes, and becomes a raw page whose body is exactly the saved text; other paths read as before |

## Left out

- pulldown_cmark's parser and HTML writer are foreign code. They are the functions of a `MarkdownLib` value, and their output is not modelled.
- The events are cut down to what the title rule looks at: H1 start and end, Text, and "anything else".
- MarkdownEvents.TryGetH1Title: the source panics when no End(H1) follows a leading Start(H1), or when a non-Text event sits inside the heading. Here those inputs are excluded by the precondition `TitleExtractable`, and `get_page`, `get_raw_page`, `raw` and `render` carry the same precondition.
- Repository.CreateRepository: the git backend is `unimplemented!` (a panic), so the precondition excludes choosing it when validation would pass. `RepoBox` and the `Repository` trait dispatch are not modelled, since the filesystem backend is the only one.
- `std::fs::canonicalize` is a parameter of `CreateRepository`. Symlinks and the resolution of "." and ".." in the root are not modelled.
- `PathBuf::push` is modelled as appending one path component. On a real system the path changes in other ways, which the model does not capture:
  - an absolute element replaces the path;
  - an element holding '/' extends it by several components;
  - an empty element adds only a separator, so `["", "x"]` names the same file as `["x"]`, and a trailing empty element turns the path into a directory path, on which `File::create` fails.
  The model treats an empty element as a component of its own. Rocket never hands over empty segments.
- Repository.ReadAt, Repository.CanCreate: `OtherEntry` stands for entries that cannot be opened as files, such as sockets and dangling links. FIFOs and device nodes are not modelled. On a character device such as `null`, `read_file` gives `Ok` with its bytes and `write_file` succeeds, while the model fails both with `Io`. On a FIFO, both calls block in `open`.
- Links are not modelled. With a symbolic or hard link inside the tree, two paths name one file, and `File::create` through a dangling link creates the link's target.
- Repository.WriteThenRead: the promise that every other path reads and probes as before holds only on a disk without such links and for paths without empty elements.
- The source never checks that a path stays inside the root, and neither does the model. Element validation only rejects elements starting with '.'.
- `io::Error` values are all collapsed into the single error `Io`. Faults the disk map does not describe, such as a full disk, permission errors or a write failing after truncation, are not modelled.
- Repository.FileSystemRepository.EnumerateFiles: returns a set, because the order of `read_dir` is filesystem-defined. `read_dir` entries that fail are skipped in the source and cannot occur here. Names that are not valid UTF-8 would make `to_str().unwrap()` panic; here names are strings.
- Repository.FileSystemRepository.WriteFile: `File::create` creates no missing parent directories, so the model fails the write with `Io`. It also does not distinguish "not found" from other I/O errors. Both follow the code.
- `Display::fmt`'s `fmt::Error` path is not modelled. Writing to a string never fails.
- Requests.WikiPagePath.CreateBreadcrumbs: the breadcrumb link is kept as the target path. Rendering it into a URL with Rocket's `uri!` is left out.
- `FromSegments` and the `UriDisplay` impls, and the Rocket route handlers, responders, templates and static assets, are not part of this model.
- The UTF-8 conversions `str::as_bytes` and `str::from_utf8` are modelled by the RFC 3629 codec in `Utf8`, not by calls into the standard library.
- These are not part of this model:
  - settings and command-line loading (`src/settings.rs`, `src/args.rs`), reduced to the `Settings` value;
  - `build.rs`;
  - `src/main.rs`, `src/wiki.rs`, `src/assets.rs` and `src/templates.rs`;
  - the frontend.
- The git backend, search index, transclusion, capabilities and commit messages are not part of this model. No modelled file implements them.
- The unit tests' expected HTML and smart punctuation (`src/page.rs:176-203`, `src/requests.rs:298-326`) describe what pulldown_cmark outputs. They are not stated, because the parser is a parameter.
