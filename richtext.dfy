/** `extrair_texto_bloco` (gerar_teste.py:64-74): the texts of the `text`
    nodes of a rich-text tree, collected depth first, left to right. */
module RichText {
  import opened Wrappers

  /** A rich-text node as a dictionary: its `type` and `text` keys may be
      absent, and its `content` key, when present, holds the child nodes. */
  datatype Item = Item(kind: Option<string>, text: Option<string>, content: Children)

  /** The `content` key: absent, or a list of nodes. */
  datatype Children = NoContent | Content(items: seq<Item>)

  /** The `KeyError` of `item["type"]` or of `item["text"]`. */
  datatype KeyError = MissingType | MissingText

  type Texts = Result<seq<string>, KeyError>

  /** `extrair_texto_bloco(bloco)`: a block without `content` yields no
      texts. */
  function BlockTexts(b: Item): Texts
    decreases b, 0
  {
    match b.content
    case NoContent => Ok([])
    case Content(items) => ItemsTexts(items)
  }

  /** The loop over `bloco["content"]`: what the items before the last add,
      then what the last adds, unless an earlier item raised a `KeyError`. */
  function ItemsTexts(items: seq<Item>): Texts
    decreases items, 0
  {
    if items == [] then Ok([])
    else Then(ItemsTexts(items[..|items| - 1]), ItemTextsOf(items[|items| - 1]))
  }

  /** What one item adds in the loop body: a `text` item its text (it is
      not descended into), another item with `content` the texts found
      inside it, any other item nothing; `item["type"]` and, on a `text`
      item, `item["text"]` raise `KeyError` when absent. */
  function ItemTextsOf(item: Item): Texts
    decreases item, 1
  {
    match item.kind
    case None => Err(MissingType)
    case Some(k) =>
      if k == "text" then
        match item.text
        case None => Err(MissingText)
        case Some(t) => Ok([t])
      else if item.content.Content? then BlockTexts(item)
      else Ok([])
  }

  /** Sequencing of two walks: the first error wins, else the texts of the
      first walk come before those of the second. */
  function Then(a: Texts, b: Texts): Texts {
    match a
    case Err(e) => Err(e)
    case Ok(x) =>
      match b
      case Err(e) => Err(e)
      case Ok(y) => Ok(x + y)
  }

  /** The reference definition: a pre-order walk of the tree, written from
      the first child on. */
  function PreOrder(b: Item): Texts
    decreases b, 0
  {
    match b.content
    case NoContent => Ok([])
    case Content(items) => PreOrderItems(items)
  }

  function PreOrderItems(items: seq<Item>): Texts
    decreases items, 0
  {
    if items == [] then Ok([])
    else Then(PreOrderItem(items[0]), PreOrderItems(items[1..]))
  }

  function PreOrderItem(item: Item): Texts
    decreases item, 1
  {
    match item.kind
    case None => Err(MissingType)
    case Some(k) =>
      if k == "text" then
        match item.text
        case None => Err(MissingText)
        case Some(t) => Ok([t])
      else if item.content.Content? then PreOrder(item)
      else Ok([])
  }

  lemma ThenAssoc(a: Texts, b: Texts, c: Texts)
    ensures Then(Then(a, b), c) == Then(a, Then(b, c))
  {
    match a
    case Err(_) =>
    case Ok(x) =>
      match b
      case Err(_) =>
      case Ok(y) =>
        match c
        case Err(_) =>
        case Ok(z) => assert x + y + z == x + (y + z);
  }

  lemma ThenOkEmpty(a: Texts)
    ensures Then(a, Ok([])) == a && Then(Ok([]), a) == a
  {
    match a
    case Err(_) =>
    case Ok(x) => assert x + [] == x && [] + x == x;
  }

  /** The walk over a concatenation is the walk over the first list, then
      over the second: items are visited in order and an error stops it. */
  lemma {:induction false} ItemsTextsAppend(a: seq<Item>, b: seq<Item>)
    ensures ItemsTexts(a + b) == Then(ItemsTexts(a), ItemsTexts(b))
    decreases |b|
  {
    if b == [] {
      assert a + b == a;
      ThenOkEmpty(ItemsTexts(a));
    } else {
      var init, last := b[..|b| - 1], b[|b| - 1];
      assert (a + b)[..|a + b| - 1] == a + init;
      assert (a + b)[|a + b| - 1] == last;
      ItemsTextsAppend(a, init);
      ThenAssoc(ItemsTexts(a), ItemsTexts(init), ItemTextsOf(last));
    }
  }

  /** The accumulating loop computes the pre-order walk: the texts in depth
      first, left-to-right order, or the first `KeyError` met on the way. */
  lemma {:induction false} BlockTextsPreOrder(b: Item)
    ensures BlockTexts(b) == PreOrder(b)
    decreases b, 0
  {
    match b.content
    case NoContent =>
    case Content(items) => ItemsTextsPreOrder(items);
  }

  lemma {:induction false} ItemsTextsPreOrder(items: seq<Item>)
    ensures ItemsTexts(items) == PreOrderItems(items)
    decreases items, 0
  {
    if items != [] {
      var first, rest := items[0], items[1..];
      assert items == [first] + rest;
      ItemsTextsAppend([first], rest);
      assert [first][..0] == [];
      ThenOkEmpty(ItemTextsOf(first));
      ItemTextsPreOrder(first);
      ItemsTextsPreOrder(rest);
    }
  }

  lemma {:induction false} ItemTextsPreOrder(item: Item)
    ensures ItemTextsOf(item) == PreOrderItem(item)
    decreases item, 1
  {
    if item.kind.Some? && item.kind.value != "text" && item.content.Content? {
      BlockTextsPreOrder(item);
    }
  }

  /** Every item the walk visits has a `type`, and every `text` item among
      them has a `text`. */
  predicate WellFormed(b: Item)
    decreases b, 0
  {
    b.content.Content? ==> forall i :: 0 <= i < |b.content.items| ==> WellFormedItem(b.content.items[i])
  }

  predicate WellFormedItem(item: Item)
    decreases item, 1
  {
    item.kind.Some?
    && (item.kind.value == "text" ==> item.text.Some?)
    && (item.kind.value != "text" && item.content.Content? ==> WellFormed(item))
  }

  /** A block without `content` yields no texts; the walk raises
      `KeyError` exactly when some visited item lacks `type`, or some
      visited `text` item lacks `text`. */
  lemma {:induction false} BlockTextsOk(b: Item)
    ensures b.content.NoContent? ==> BlockTexts(b) == Ok([])
    ensures BlockTexts(b).Ok? <==> WellFormed(b)
    decreases b, 0
  {
    match b.content
    case NoContent =>
    case Content(items) => ItemsTextsOk(items);
  }

  lemma {:induction false} ItemsTextsOk(items: seq<Item>)
    ensures ItemsTexts(items).Ok? <==> forall i :: 0 <= i < |items| ==> WellFormedItem(items[i])
    decreases items, 0
  {
    if items != [] {
      var init, last := items[..|items| - 1], items[|items| - 1];
      ItemsTextsOk(init);
      ItemTextsOk(last);
      assert forall i :: 0 <= i < |init| ==> init[i] == items[i];
    }
  }

  lemma {:induction false} ItemTextsOk(item: Item)
    ensures ItemTextsOf(item).Ok? <==> WellFormedItem(item)
    decreases item, 1
  {
    if item.kind.Some? && item.kind.value != "text" && item.content.Content? {
      BlockTextsOk(item);
    }
  }

  /** `extrair_texto_bloco`: the append loop over `bloco["content"]`, with
      the recursive call for nested content. */
  method ExtractTexts(bloco: Item) returns (r: Texts)
    ensures r == BlockTexts(bloco)
    decreases bloco
  {
    var textos: seq<string> := [];
    if bloco.content.Content? {
      var items := bloco.content.items;
      var k := 0;
      while k < |items|
        invariant 0 <= k <= |items|
        invariant ItemsTexts(items[..k]) == Ok(textos)
      {
        var item := items[k];
        assert items[..k + 1][..k] == items[..k] && items[..k + 1][k] == item;
        assert ItemsTexts(items[..k + 1]) == Then(Ok(textos), ItemTextsOf(item));
        ItemsTextsAppend(items[..k + 1], items[k + 1..]);
        assert items[..k + 1] + items[k + 1..] == items;
        if item.kind.None? {
          return Err(MissingType);
        }
        if item.kind.value == "text" {
          if item.text.None? {
            return Err(MissingText);
          }
          textos := textos + [item.text.value];
        } else if item.content.Content? {
          var sub := ExtractTexts(item);
          if sub.Err? {
            return Err(sub.error);
          }
          textos := textos + sub.value;
        } else {
          assert textos + [] == textos;
        }
        k := k + 1;
      }
      assert items[..k] == items;
    }
    r := Ok(textos);
  }
}
