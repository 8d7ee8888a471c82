/** components/MdxCodeBlock.tsx: the code block of the documentation pages.
    Its text is the flattened text of the React children, less trailing
    white space; the copy button writes it to the clipboard and shows
    `Copied` until a timer resets the flag. */
module CodeBlock {
  import opened Wrappers
  import opened Text

  /** The React nodes `getCodeText` tells apart: a string, an array of nodes,
      an element whose `props.children` may be missing, and anything else
      (numbers, booleans, null). */
  datatype Node =
    | Str(s: string)
    | Array(items: seq<Node>)
    | Element(children: Option<Node>)
    | Other

  /** `getCodeText`: strings are kept, arrays are flattened in order and
      joined with no separator, an element gives the text of its children
      (missing children count as `''`), anything else gives `''`. */
  function GetCodeText(n: Node): string
    decreases n
  {
    match n
    case Str(s) => s
    case Array(items) => Join(seq(|items|, i requires 0 <= i < |items| => GetCodeText(items[i])), "")
    // missing children fall back to `''`, whose text is `''`
    case Element(children) => if children.Some? then GetCodeText(children.value) else ""
    case Other => ""
  }

  /** The texts of the items of an array, in order. */
  function ItemTexts(items: seq<Node>): (texts: seq<string>)
    ensures |texts| == |items|
    ensures forall i :: 0 <= i < |items| ==> texts[i] == GetCodeText(items[i])
  {
    seq(|items|, i requires 0 <= i < |items| => GetCodeText(items[i]))
  }

  /** An independent reference: the string leaves of the tree, left to right. */
  function Leaves(n: Node): seq<string>
    decreases n, 1
  {
    match n
    case Str(s) => [s]
    case Array(items) => LeavesOf(items)
    case Element(children) => if children.Some? then Leaves(children.value) else []
    case Other => []
  }

  function LeavesOf(items: seq<Node>): seq<string>
    decreases items, 0
  {
    if items == [] then [] else LeavesOf(items[..|items| - 1]) + Leaves(items[|items| - 1])
  }

  /** The array case is the in-order concatenation of the items' texts. */
  lemma ArrayText(items: seq<Node>)
    ensures GetCodeText(Array(items)) == Concat(ItemTexts(items))
  {
    assert GetCodeText(Array(items)) == Join(ItemTexts(items), "");
    JoinEmptySep(ItemTexts(items));
  }

  /** Flattening an array distributes over splitting it in two. */
  lemma ArrayTextAppend(a: seq<Node>, b: seq<Node>)
    ensures GetCodeText(Array(a + b)) == GetCodeText(Array(a)) + GetCodeText(Array(b))
  {
    ArrayText(a + b);
    ArrayText(a);
    ArrayText(b);
    assert ItemTexts(a + b) == ItemTexts(a) + ItemTexts(b);
    ConcatAppend(ItemTexts(a), ItemTexts(b));
  }

  /** The flattened text is the concatenation of the string leaves, so
      wrapping in elements or arrays never adds or reorders text. */
  lemma {:induction false} TextIsLeaves(n: Node)
    ensures GetCodeText(n) == Concat(Leaves(n))
    decreases n, 1
  {
    match n
    case Str(s) =>
      assert Concat([s]) == s + Concat([]);
    case Array(items) =>
      LeavesOfText(items);
    case Element(children) =>
      if children.Some? {
        TextIsLeaves(children.value);
      }
    case Other =>
  }

  lemma {:induction false} LeavesOfText(items: seq<Node>)
    ensures GetCodeText(Array(items)) == Concat(LeavesOf(items))
    decreases items, 0
  {
    if items == [] {
      ArrayText(items);
    } else {
      var n := |items| - 1;
      assert items == items[..n] + [items[n]];
      ArrayTextAppend(items[..n], [items[n]]);
      LeavesOfText(items[..n]);
      TextIsLeaves(items[n]);
      ArrayText([items[n]]);
      assert Concat(ItemTexts([items[n]])) == GetCodeText(items[n]) + Concat([]);
      ConcatAppend(LeavesOf(items[..n]), Leaves(items[n]));
    }
  }

  /** `codeText`: the flattened text with trailing white space removed; it is
      a prefix of the flattened text, ends in no white space, and only white
      space was dropped. */
  function CodeText(children: Node): (t: string)
    ensures var full := GetCodeText(children);
      && |t| <= |full| && t == full[..|t|]
      && (t == [] || !IsJsSpace(t[|t| - 1]))
      && (forall i :: |t| <= i < |full| ==> IsJsSpace(full[i]))
  {
    TrimEndJsStrip(GetCodeText(children));
    TrimEndJs(GetCodeText(children))
  }

  /** The copy button: its `copied` flag and, standing for
      `navigator.clipboard`, the last text written to the clipboard. */
  class CopyButton {
    const children: Node
    var copied: bool
    var clipboard: Option<string>

    constructor(children: Node)
      ensures this.children == children && !copied && clipboard.None?
    {
      this.children := children;
      copied := false;
      clipboard := None;
    }

    /** The button label. */
    function Label(): (l: string)
      reads this
      ensures l == "Copied" <==> copied
      ensures l == "Copied" || l == "Copy"
    {
      if copied then "Copied" else "Copy"
    }

    /** `handleCopy`: nothing happens when the code text is empty; otherwise
        the text goes to the clipboard and the flag is set. */
    method HandleCopy()
      modifies this
      ensures CodeText(children) == "" ==> copied == old(copied) && clipboard == old(clipboard)
      ensures CodeText(children) != "" ==> copied && clipboard == Some(CodeText(children))
    {
      var codeText := CodeText(children);
      if codeText == "" {
        return;
      }
      clipboard := Some(codeText);
      copied := true;
    }

    /** The 1500 ms timer started by a copy: it clears the flag. */
    method TimerFires()
      modifies this
      ensures !copied && clipboard == old(clipboard)
    {
      copied := false;
    }
  }

  /** After a copy of a non-empty text the label reads `Copied`, and after
      the timer it reads `Copy` again; a block whose text is empty or only
      white space never shows `Copied`. */
  method CopyCycle(children: Node) returns (during: string, after: string)
    ensures CodeText(children) != "" ==> during == "Copied" && after == "Copy"
    ensures CodeText(children) == "" ==> during == "Copy" && after == "Copy"
  {
    var button := new CopyButton(children);
    button.HandleCopy();
    during := button.Label();
    button.TimerFires();
    after := button.Label();
  }
}
