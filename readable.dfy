/**
 * The `extract_readable` tool after the extraction heuristic has run: the
 * article it found, if any, rendered as blank-line separated blocks. The
 * page fetch, the DOM parse and the heuristic itself are left out; the
 * input is the article the heuristic returns.
 */
module Readable {
  import opened Wrappers
  import opened Strings

  /** The text returned when no article was found. */
  const NoContent := "No readable content found."

  /** The fields of an extracted article that are rendered; each may be missing. */
  datatype Article = Article(title: Option<string>, byline: Option<string>,
                             excerpt: Option<string>, textContent: Option<string>)

  /** JavaScript truthiness of an optional string: present and not empty. */
  predicate Present(field: Option<string>) {
    field.Some? && field.value != []
  }

  /** A field together with the prefix its block carries. */
  datatype Slot = Slot(field: Option<string>, prefix: string)

  /** The rendering order: title as a heading, byline, excerpt, text. */
  function Slots(a: Article): seq<Slot> {
    [Slot(a.title, "# "), Slot(a.byline, "by "), Slot(a.excerpt, ""), Slot(a.textContent, "")]
  }

  /** The block of one slot: none when its field is missing or empty. */
  function Block(s: Slot): seq<string> {
    if Present(s.field) then [s.prefix + s.field.value] else []
  }

  /** The blocks of the present fields, in slot order, each with its prefix. */
  function Blocks(slots: seq<Slot>): seq<string> {
    if slots == [] then [] else Block(slots[0]) + Blocks(slots[1..])
  }

  /** The blocks of an article are the blocks of its four fields, title first and text last. */
  lemma BlocksInOrder(a: Article)
    ensures Blocks(Slots(a)) ==
      Block(Slot(a.title, "# ")) + Block(Slot(a.byline, "by ")) + Block(Slot(a.excerpt, "")) + Block(Slot(a.textContent, ""))
  {
    var s := Slots(a);
    assert s[1..][1..][1..][1..] == [];
    assert Blocks(s[1..][1..][1..]) == Block(Slot(a.textContent, ""));
    assert Blocks(s[1..][1..]) == Block(Slot(a.excerpt, "")) + Block(Slot(a.textContent, ""));
  }

  /** The number of slots whose field is present. */
  function CountPresent(slots: seq<Slot>): nat {
    if slots == [] then 0 else (if Present(slots[0].field) then 1 else 0) + CountPresent(slots[1..])
  }

  /** What the tool returns for the heuristic's outcome. */
  function Rendered(article: Option<Article>): string {
    match article
    case None => NoContent
    case Some(a) => Join(Blocks(Slots(a)), "\n\n")
  }

  /** The `extract_readable` handler, from the heuristic's outcome on. */
  method ExtractReadable(article: Option<Article>) returns (text: string)
    ensures text == Rendered(article)
  {
    if article.None? {
      return NoContent;
    }
    var a := article.value;
    var textBlocks: seq<string> := [];
    if Present(a.title) {
      textBlocks := textBlocks + ["# " + a.title.value];
    }
    assert textBlocks == Block(Slot(a.title, "# "));
    if Present(a.byline) {
      textBlocks := textBlocks + ["by " + a.byline.value];
    }
    assert textBlocks == Block(Slot(a.title, "# ")) + Block(Slot(a.byline, "by "));
    if Present(a.excerpt) {
      textBlocks := textBlocks + [a.excerpt.value];
      assert "" + a.excerpt.value == a.excerpt.value;
    }
    assert textBlocks == Block(Slot(a.title, "# ")) + Block(Slot(a.byline, "by ")) + Block(Slot(a.excerpt, ""));
    if Present(a.textContent) {
      textBlocks := textBlocks + [a.textContent.value];
      assert "" + a.textContent.value == a.textContent.value;
    }
    BlocksInOrder(a);
    assert textBlocks == Blocks(Slots(a));
    text := Join(textBlocks, "\n\n");
  }

  /**
   * One block per present field and none for a missing or empty one; no
   * block is empty, so nothing stands in for a missing field.
   */
  lemma {:induction false} BlocksOfPresentFields(slots: seq<Slot>)
    ensures |Blocks(slots)| == CountPresent(slots)
    ensures forall k :: 0 <= k < |Blocks(slots)| ==> Blocks(slots)[k] != []
  {
    if slots != [] {
      BlocksOfPresentFields(slots[1..]);
    }
  }

  /** An article with only a title and text renders as the heading block and the text block. */
  lemma TitleAndTextOnly(a: Article)
    requires Present(a.title) && Present(a.textContent)
    requires !Present(a.byline) && !Present(a.excerpt)
    ensures Rendered(Some(a)) == "# " + a.title.value + "\n\n" + a.textContent.value
  {
    BlocksInOrder(a);
    var blocks := ["# " + a.title.value, a.textContent.value];
    assert "" + a.textContent.value == a.textContent.value;
    assert Blocks(Slots(a)) == ["# " + a.title.value] + [] + [] + [a.textContent.value] == blocks;
    assert blocks[1..] == [a.textContent.value];
    assert Join(blocks, "\n\n") == blocks[0] + "\n\n" + Join(blocks[1..], "\n\n");
  }

  /** A missing field and an empty one render alike. */
  lemma EmptyFieldIsMissing(a: Article)
    ensures Rendered(Some(a)) == Rendered(Some(Article(
      if Present(a.title) then a.title else None,
      if Present(a.byline) then a.byline else None,
      if Present(a.excerpt) then a.excerpt else None,
      if Present(a.textContent) then a.textContent else None)))
  {
    var b := Article(
      if Present(a.title) then a.title else None,
      if Present(a.byline) then a.byline else None,
      if Present(a.excerpt) then a.excerpt else None,
      if Present(a.textContent) then a.textContent else None);
    BlocksInOrder(a);
    BlocksInOrder(b);
  }

  /**
   * An article whose four fields are all missing or empty renders as the
   * empty text, not as the no-content message.
   */
  lemma NothingPresentRendersEmpty(a: Article)
    requires !Present(a.title) && !Present(a.byline) && !Present(a.excerpt) && !Present(a.textContent)
    ensures Rendered(Some(a)) == [] && Rendered(Some(a)) != NoContent
  {
    BlocksInOrder(a);
  }
}
