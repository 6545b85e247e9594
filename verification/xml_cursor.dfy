/** The forward-only XML cursor of src/Helper/XmlReader.php. PHP's native
    XMLReader parser is not modelled: a part is the sequence of node events it
    would report, and the cursor is a position in that sequence. */
module XmlCursor {
  import opened Common

  /** The XMLReader node types the readers tell apart; every other type
      (attribute, CDATA, comment, significant whitespace, ...) is `OtherNode`. */
  datatype NodeType = NoneNode | Element | TextNode | Whitespace | EndElement | OtherNode

  /** One node event: its type, name, attributes, whether the element is
      self-closing, and its value (the text of a text or whitespace node). */
  datatype Node = Node(nodeType: NodeType, name: string, attrs: map<string, string>,
                       isEmpty: bool, value: string)

  /** What the cursor reports before the first read and after the last one. */
  const Blank := Node(NoneNode, "", map[], false, "")

  /** `getAttribute(key)`: the attribute's text, or null when absent. */
  function Attribute(n: Node, key: string): Text
  {
    if key in n.attrs then Some(n.attrs[key]) else None
  }

  /** The current node when the cursor stands at position `p`. Position -1
      is before the first read and `|ev|` is after the last one. */
  function NodeAt(ev: seq<Node>, p: int): Node
  {
    if 0 <= p < |ev| then ev[p] else Blank
  }

  /** A node at which `find(name)` stops scanning. */
  predicate StopsFind(n: Node, name: string)
  {
    n.nodeType == NoneNode || (n.nodeType == Element && n.name == name)
  }

  /** Where `find(name)` leaves a cursor that stood at `p`: it reads at least
      one node and stops at the first NONE node or element named `name`, or
      at the end when `read()` fails. */
  function FindStop(ev: seq<Node>, p: int, name: string): (q: int)
    requires -1 <= p <= |ev|
    ensures q <= |ev| && (p < q || q == |ev|)
    ensures q < |ev| ==> StopsFind(ev[q], name)
    ensures forall k :: p < k < q ==> !StopsFind(ev[k], name)
    decreases |ev| - p
  {
    var next := p + 1;
    if next >= |ev| then |ev|
    else if StopsFind(ev[next], name) then next
    else FindStop(ev, next, name)
  }

  /** The tail of `readValue` for a non-empty element: reads on from `p` with
      the nesting `depth` and the text `content` gathered so far, and returns
      the text and the position of the balancing end tag. */
  function Collect(ev: seq<Node>, p: int, depth: nat, content: string): (r: (Text, int))
    requires -1 <= p <= |ev|
    ensures p <= r.1 <= |ev|
    decreases |ev| - p
  {
    var next := p + 1;
    if next >= |ev| then (None, |ev|)
    else
      var n := ev[next];
      if n.nodeType == TextNode || n.nodeType == Whitespace then
        Collect(ev, next, depth, content + n.value)
      else if n.nodeType == Element && !n.isEmpty then
        Collect(ev, next, depth + 1, content)
      else if n.nodeType == EndElement then
        if depth == 0 then (Some(content), next) else Collect(ev, next, depth - 1, content)
      else Collect(ev, next, depth, content)
  }

  /** What `readValue()` returns from a cursor standing at `p`, and where it
      leaves the cursor. */
  function ReadValueAt(ev: seq<Node>, p: int): (r: (Text, int))
    requires -1 <= p <= |ev|
    ensures p <= r.1 <= |ev|
  {
    var cur := NodeAt(ev, p);
    if cur.isEmpty then (None, p)
    else if cur.nodeType == TextNode then (Some(cur.value), p)
    else if cur.nodeType != Element then (None, p)
    else Collect(ev, p, 0, "")
  }

  // ---------------------------------------------------------------------
  // A reference definition of the balancing end tag

  /** How a node changes the nesting: a non-empty element opens, an end tag closes. */
  function Delta(n: Node): int
  {
    if n.nodeType == Element && !n.isEmpty then 1
    else if n.nodeType == EndElement then -1
    else 0
  }

  /** Opened minus closed elements in `s`. */
  function Nesting(s: seq<Node>): int
    decreases |s|
  {
    if s == [] then 0 else Nesting(s[..|s| - 1]) + Delta(s[|s| - 1])
  }

  /** The text and whitespace values of `s`, in order. */
  function Texts(s: seq<Node>): string
    decreases |s|
  {
    if s == [] then ""
    else
      var n := s[|s| - 1];
      Texts(s[..|s| - 1]) + (if n.nodeType == TextNode || n.nodeType == Whitespace then n.value else "")
  }

  /** Every end tag in `ev` after `p` and up to `k` still lies inside the element at `p`. */
  predicate StillOpen(ev: seq<Node>, p: int, k: int)
    requires -1 <= p <= k < |ev|
  {
    forall j :: p < j <= k && ev[j].nodeType == EndElement ==> Nesting(ev[p + 1..j]) > 0
  }

  /** `q` holds the end tag that balances the element at `p`: the first end
      tag after `p` at which the nesting of the nodes between is zero. */
  predicate ClosesAt(ev: seq<Node>, p: int, q: int)
  {
    -1 <= p < q < |ev| && ev[q].nodeType == EndElement
    && Nesting(ev[p + 1..q]) == 0 && StillOpen(ev, p, q - 1)
  }

  /** Extending the span after `p` by the node at `next` adds that node's
      nesting change and its text. */
  lemma SpanStep(ev: seq<Node>, p: int, next: int)
    requires -1 <= p < next < |ev|
    ensures Nesting(ev[p + 1..next + 1]) == Nesting(ev[p + 1..next]) + Delta(ev[next])
    ensures Texts(ev[p + 1..next + 1]) == Texts(ev[p + 1..next])
      + (if ev[next].nodeType == TextNode || ev[next].nodeType == Whitespace then ev[next].value else "")
  {
    var pre := ev[p + 1..next + 1];
    assert pre[..|pre| - 1] == ev[p + 1..next];
    assert pre[|pre| - 1] == ev[next];
  }

  /** After the events run out, nothing balances an element that is still open. */
  lemma NoCloseAfterEnd(ev: seq<Node>, p: int)
    requires -1 <= p < |ev| && StillOpen(ev, p, |ev| - 1)
    ensures forall j :: !ClosesAt(ev, p, j)
  {
  }

  lemma {:induction false} CollectBalanced(ev: seq<Node>, p: int, k: int, depth: nat, content: string)
    requires -1 <= p <= k < |ev|
    requires depth == Nesting(ev[p + 1..k + 1]) && content == Texts(ev[p + 1..k + 1])
    requires StillOpen(ev, p, k)
    ensures var (v, q) := Collect(ev, k, depth, content);
      (v.Some? ==> ClosesAt(ev, p, q) && v.value == Texts(ev[p + 1..q]))
      && (v.None? ==> q == |ev| && forall j :: !ClosesAt(ev, p, j))
    decreases |ev| - k
  {
    var next := k + 1;
    if next >= |ev| {
      NoCloseAfterEnd(ev, p);
    } else {
      var n := ev[next];
      SpanStep(ev, p, next);
      if n.nodeType == EndElement && depth == 0 {
        assert ClosesAt(ev, p, next);
      } else {
        assert StillOpen(ev, p, next);
        if n.nodeType == EndElement {
          CollectBalanced(ev, p, next, depth - 1, content);
        } else if n.nodeType == TextNode || n.nodeType == Whitespace {
          CollectBalanced(ev, p, next, depth, content + n.value);
        } else if n.nodeType == Element && !n.isEmpty {
          CollectBalanced(ev, p, next, depth + 1, content);
        } else {
          CollectBalanced(ev, p, next, depth, content);
        }
      }
    }
  }

  /** `readValue` on a non-empty element returns, in order, the text and
      whitespace values up to the end tag that balances the element, and
      leaves the cursor on that end tag; it returns null at the end of the
      events when no end tag balances it. */
  lemma ReadValueBalanced(ev: seq<Node>, p: int)
    requires 0 <= p < |ev| && ev[p].nodeType == Element && !ev[p].isEmpty
    ensures var (v, q) := ReadValueAt(ev, p);
      (v.Some? ==> ClosesAt(ev, p, q) && v.value == Texts(ev[p + 1..q]))
      && (v.None? ==> q == |ev| && forall j :: !ClosesAt(ev, p, j))
  {
    assert ev[p + 1..p + 1] == [];
    CollectBalanced(ev, p, p, 0, "");
  }

  // ---------------------------------------------------------------------
  // The cursor

  /** The helper `XmlReader` over one part: `pos` is the current node. */
  class Cursor {
    const events: seq<Node>
    var pos: int

    ghost predicate Valid()
      reads this
    {
      -1 <= pos <= |events|
    }

    /** The node the cursor stands on (`nodeType`, `name`, `value`, ...). */
    function Current(): Node
      reads this
    {
      NodeAt(events, pos)
    }

    constructor (events: seq<Node>)
      ensures Valid() && this.events == events && pos == -1
    {
      this.events := events;
      pos := -1;
    }

    /** `read()`: move to the next node; false once the events are exhausted. */
    method Read() returns (ok: bool)
      requires Valid()
      modifies this
      ensures Valid()
      ensures pos == if old(pos) + 1 < |events| then old(pos) + 1 else |events|
      ensures ok <==> pos < |events|
    {
      if pos + 1 < |events| {
        pos := pos + 1;
        ok := true;
      } else {
        pos := |events|;
        ok := false;
      }
    }

    /** `find(name)`: read forward to the next element named `name` (or a
      NONE node, or the end) and tell whether the current name is `name`. */
    method Find(name: string) returns (found: bool)
      requires Valid()
      modifies this
      ensures Valid()
      ensures pos == FindStop(events, old(pos), name)
      ensures found <==> Current().name == name
    {
      ghost var target := FindStop(events, pos, name);
      var ok := Read();
      while ok && Current().nodeType != NoneNode
            && (Current().nodeType != Element || Current().name != name)
        invariant Valid() && 0 <= pos && (ok <==> pos < |events|)
        invariant ok && !StopsFind(events[pos], name) ==> target == FindStop(events, pos, name)
        invariant !(ok && !StopsFind(events[pos], name)) ==> target == pos
        decreases |events| - pos
      {
        ok := Read();
      }
      found := Current().name == name;
    }

    /** `readValue()`: null on a self-closing element, the value of a text
      node, null on any other non-element; on an element, the text gathered
      up to its balancing end tag (null when the events end first). */
    method ReadValue() returns (v: Text)
      requires Valid()
      modifies this
      ensures Valid()
      ensures (v, pos) == ReadValueAt(events, old(pos))
    {
      var cur := Current();
      if cur.isEmpty {
        return None;
      }
      if cur.nodeType == TextNode {
        return Some(cur.value);
      }
      if cur.nodeType != Element {
        return None;
      }
      ghost var start := pos;
      var depth: nat := 0;
      var content := "";
      var ok := Read();
      while ok
        invariant Valid() && 0 <= pos && (ok <==> pos < |events|)
        invariant Collect(events, start, 0, "") == Collect(events, pos - 1, depth, content)
        decreases |events| - pos
      {
        var n := Current();
        if n.nodeType == TextNode || n.nodeType == Whitespace {
          content := content + n.value;
        } else if n.nodeType == Element && !n.isEmpty {
          depth := depth + 1;
        } else if n.nodeType == EndElement {
          if depth == 0 {
            return Some(content);
          }
          depth := depth - 1;
        }
        ok := Read();
      }
      v := None;
    }
  }
}
