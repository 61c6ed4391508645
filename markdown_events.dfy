/** The Markdown event stream and H1-title extraction shared by
    src/page.rs and src/requests.rs (the two files carry identical copies of
    `try_get_h1_title` and `MarkdownPage`). The pulldown_cmark parser and its
    HTML writer are foreign: they enter as the two functions of a
    `MarkdownLib` value. */
module MarkdownEvents {
  import opened Errors

  /** The one setting the core reads (src/settings.rs): whether a leading H1
      becomes the page title. */
  datatype Settings = Settings(h1Title: bool)

  datatype HeadingLevel = H1 | H2 | H3 | H4 | H5 | H6

  /** The tags the core distinguishes; every other tag is `OtherTag`. */
  datatype Tag = Heading(level: HeadingLevel) | OtherTag

  /** A parser event, abstracted to what `try_get_h1_title` inspects. */
  datatype Event = Start(tag: Tag) | End(tag: Tag) | Text(text: string) | OtherEvent

  /** `Parser::new_ext(src, options)` with the options the wiki enables, and
      `html::push_html`. */
  datatype MarkdownLib = MarkdownLib(parse: string -> seq<Event>, pushHtml: seq<Event> -> string)

  predicate IsEndH1(e: Event) { e == End(Heading(H1)) }

  /** The guard of `try_get_h1_title`: the setting is on, there are at least
      two events and the first opens an H1. */
  predicate StartsWithH1(h1Title: bool, events: seq<Event>)
  {
    h1Title && |events| >= 2 && events[0] == Start(Heading(H1))
  }

  /** `events.iter().position(|e| matches!(e, End(Heading(H1, ..))))`. */
  function FirstEndH1(events: seq<Event>): (r: Option<nat>)
    ensures r.Some? ==> r.value < |events| && IsEndH1(events[r.value])
    ensures r.Some? ==> forall j :: 0 <= j < r.value ==> !IsEndH1(events[j])
    ensures r.None? ==> forall j :: 0 <= j < |events| ==> !IsEndH1(events[j])
  {
    if events == [] then None
    else if IsEndH1(events[0]) then Some(0)
    else
      match FirstEndH1(events[1..])
      case None => None
      case Some(k) => Some(k + 1)
  }

  predicate AllText(events: seq<Event>)
  {
    forall j :: 0 <= j < |events| ==> events[j].Text?
  }

  /** The `map(..).collect::<String>()` over the heading's events. */
  function ConcatText(events: seq<Event>): string
    requires AllText(events)
  {
    if events == [] then "" else events[0].text + ConcatText(events[1..])
  }

  /** What `try_get_h1_title` needs in order not to panic: once the guard
      holds, an End(H1) must exist (the `unwrap`) and every event between the
      start and that end must be Text (the `panic!`). */
  predicate TitleExtractable(h1Title: bool, events: seq<Event>)
  {
    StartsWithH1(h1Title, events) ==>
      FirstEndH1(events).Some? && AllText(events[1..FirstEndH1(events).value])
  }

  /** The title `try_get_h1_title` returns and the events it leaves behind. */
  datatype TitleSplit = TitleSplit(title: string, remaining: seq<Event>)

  /** The effect of `try_get_h1_title` as a value: the title and the event
      list after `drain(0..=end_ndx)`. */
  function ExtractTitle(h1Title: bool, fallback: string, events: seq<Event>): TitleSplit
    requires TitleExtractable(h1Title, events)
  {
    if StartsWithH1(h1Title, events) then
      var k := FirstEndH1(events).value;
      TitleSplit(ConcatText(events[1..k]), events[k + 1..])
    else
      TitleSplit(fallback, events)
  }

  /** The caller's `Vec<Event>`, which `try_get_h1_title` drains in place. */
  class EventVec {
    var items: seq<Event>

    constructor (items: seq<Event>)
      ensures this.items == items
    {
      this.items := items;
    }
  }

  lemma {:induction false} ConcatTextSnoc(events: seq<Event>, e: Event)
    requires AllText(events) && e.Text?
    ensures AllText(events + [e]) && ConcatText(events + [e]) == ConcatText(events) + e.text
  {
    if events != [] {
      assert (events + [e])[1..] == events[1..] + [e];
      ConcatTextSnoc(events[1..], e);
    }
  }

  /** `try_get_h1_title` (src/requests.rs, src/page.rs): finds the first
      End(H1), collects the Text events before it into the title, and drains
      the heading off the front of `events`. */
  method TryGetH1Title(settings: Settings, fallbackFileName: string, events: EventVec) returns (title: string)
    requires TitleExtractable(settings.h1Title, events.items)
    modifies events
    ensures TitleSplit(title, events.items) == ExtractTitle(settings.h1Title, fallbackFileName, old(events.items))
  {
    if settings.h1Title && |events.items| >= 2 {
      if events.items[0] == Start(Heading(H1)) {
        var items := events.items;
        var endNdx := 0;
        while !IsEndH1(items[endNdx])
          invariant endNdx <= FirstEndH1(items).value
          invariant forall j :: 0 <= j < endNdx ==> !IsEndH1(items[j])
          decreases FirstEndH1(items).value - endNdx
        {
          endNdx := endNdx + 1;
        }
        assert endNdx == FirstEndH1(items).value;
        title := "";
        var i := 1;
        while i < endNdx
          invariant 1 <= i <= endNdx
          invariant AllText(items[1..i]) && title == ConcatText(items[1..i])
        {
          assert items[1..i + 1] == items[1..i] + [items[i]];
          ConcatTextSnoc(items[1..i], items[i]);
          title := title + items[i].text;
          i := i + 1;
        }
        events.items := items[endNdx + 1..];
        return;
      }
    }
    title := fallbackFileName;
  }

  /** `MarkdownPage { title, events }` as `MarkdownPage::new` builds it. */
  datatype MarkdownPage = MarkdownPage(title: string, events: seq<Event>)

  function NewMarkdownPage(settings: Settings, fileName: string, src: string, md: MarkdownLib): MarkdownPage
    requires TitleExtractable(settings.h1Title, md.parse(src))
  {
    var split := ExtractTitle(settings.h1Title, fileName, md.parse(src));
    MarkdownPage(split.title, split.remaining)
  }

  function RenderHtml(page: MarkdownPage, md: MarkdownLib): string
  {
    md.pushHtml(page.events)
  }

  /** The fallback rule: the event list is left untouched exactly when the
      guard fails, and then the title is the file stem. */
  lemma ExtractTitleFallback(h1Title: bool, fallback: string, events: seq<Event>)
    requires TitleExtractable(h1Title, events)
    ensures ExtractTitle(h1Title, fallback, events).remaining == events <==> !StartsWithH1(h1Title, events)
    ensures !StartsWithH1(h1Title, events) ==> ExtractTitle(h1Title, fallback, events).title == fallback
  {
    if StartsWithH1(h1Title, events) {
      var k := FirstEndH1(events).value;
      assert |events[k + 1..]| < |events|;
    }
  }

  /** The extraction rule: the title is the text before the first End(H1),
      events 0 through that End are removed, and the rest keeps its order. */
  lemma ExtractTitleRemovesHeading(h1Title: bool, fallback: string, events: seq<Event>)
    requires TitleExtractable(h1Title, events) && StartsWithH1(h1Title, events)
    ensures var r := ExtractTitle(h1Title, fallback, events);
      exists k :: && 1 <= k < |events| && IsEndH1(events[k])
                  && (forall j :: 0 <= j < k ==> !IsEndH1(events[j]))
                  && AllText(events[1..k]) && r.title == ConcatText(events[1..k])
                  && events == events[..k + 1] + r.remaining
  {
    var k := FirstEndH1(events).value;
    assert events == events[..k + 1] + events[k + 1..];
  }

  /** The Text events carrying `parts`, in order. */
  function TextEvents(parts: seq<string>): (r: seq<Event>)
    ensures |r| == |parts| && AllText(r)
    ensures forall j :: 0 <= j < |r| ==> r[j] == Text(parts[j])
  {
    if parts == [] then [] else [Text(parts[0])] + TextEvents(parts[1..])
  }

  function Concat(parts: seq<string>): string
  {
    if parts == [] then "" else parts[0] + Concat(parts[1..])
  }

  lemma {:induction false} ConcatTextOfTextEvents(parts: seq<string>)
    ensures ConcatText(TextEvents(parts)) == Concat(parts)
  {
    if parts != [] {
      assert TextEvents(parts)[1..] == TextEvents(parts[1..]);
      ConcatTextOfTextEvents(parts[1..]);
    }
  }

  /** Round trip: a leading H1 made of Text events is lifted out whole, its
      texts concatenated into the title, and whatever follows it is returned
      untouched. */
  lemma ExtractTitleOfHeading(fallback: string, parts: seq<string>, rest: seq<Event>)
    ensures var events := [Start(Heading(H1))] + TextEvents(parts) + [End(Heading(H1))] + rest;
      && TitleExtractable(true, events)
      && ExtractTitle(true, fallback, events) == TitleSplit(Concat(parts), rest)
  {
    var body := TextEvents(parts);
    var events := [Start(Heading(H1))] + body + [End(Heading(H1))] + rest;
    var k := |parts| + 1;
    assert IsEndH1(events[k]);
    assert forall j :: 0 <= j < k ==> !IsEndH1(events[j]) by {
      forall j | 0 <= j < k ensures !IsEndH1(events[j]) {
        if j > 0 { assert events[j] == body[j - 1]; }
      }
    }
    assert FirstEndH1(events) == Some(k);
    assert events[1..k] == body;
    assert events[k + 1..] == rest;
    ConcatTextOfTextEvents(parts);
  }
}
