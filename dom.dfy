/**
 * The parsed HTML document as BeautifulSoup presents it to the extractors:
 * a tree of elements and text nodes. "Document order" is pre-order, and
 * `find_all` searches the descendants of a node, never the node itself.
 */
module Dom {
  import opened Text

  /**
   * `classes` is an element's class list as BeautifulSoup splits the
   * `class` attribute; `attrs` are its attributes in source order, each
   * name once (the parser keeps one value per name), with a multi-valued one
   * (such as `class`) joined by single spaces, as BeautifulSoup renders it.
   * The `class` entry of `attrs` is read only by the serialiser; every
   * class test goes through `classes`. A document is an element whose tag
   * is "[document]".
   *
   * A string carries the kind BeautifulSoup gives it while parsing: the
   * name of its innermost enclosing string container (`script`, `style`,
   * `template`, `rt` or `rp`), or "" for an ordinary string. Comments are
   * not part of the tree.
   */
  datatype Node =
    | Element(tag: string, classes: seq<string>, attrs: seq<(string, string)>, children: seq<Node>)
    | TextNode(text: string, kind: string)

  /** The tags whose strings the parser gives a kind of their own. */
  const StringContainers: set<string> := {"script", "style", "template", "rt", "rp"}

  /** The kind of string a string container holds; "" for every other tag. */
  function ContainerKind(tag: string): (r: string)
    ensures r == "" || r in StringContainers
  {
    if tag in StringContainers then tag else ""
  }

  /** The kind of string `get_text()` on `n` collects: its interesting string type. */
  function Interesting(n: Node): string {
    match n
    case TextNode(_, k) => k
    case Element(t, _, _, _) => ContainerKind(t)
  }

  /** All elements below `n`, in document order (what `n.find_all(...)` ranges over). */
  function Descendants(n: Node): (r: seq<Node>)
    decreases n, 1
    ensures forall i :: 0 <= i < |r| ==> r[i].Element?
  {
    match n
    case TextNode(_, _) => []
    case Element(_, _, _, cs) => DescendantsIn(cs)
  }

  function DescendantsIn(cs: seq<Node>): (r: seq<Node>)
    decreases cs, 0
    ensures forall i :: 0 <= i < |r| ==> r[i].Element?
  {
    if cs == [] then []
    else (if cs[0].Element? then [cs[0]] + Descendants(cs[0]) else []) + DescendantsIn(cs[1..])
  }

  /**
   * `n.get_text()`: the strings below `n` of the kind `n` finds interesting,
   * concatenated in document order. An ordinary element thus skips the
   * text of scripts, style sheets, templates and ruby annotations.
   */
  function GetText(n: Node): string {
    match n
    case TextNode(s, _) => s
    case Element(_, _, _, cs) => StringsIn(cs, Interesting(n))
  }

  /** The strings of kind `kind` below `n` (or `n` itself), in document order. */
  function Strings(n: Node, kind: string): string
    decreases n, 1
  {
    match n
    case TextNode(s, k) => if k == kind then s else ""
    case Element(_, _, _, cs) => StringsIn(cs, kind)
  }

  function StringsIn(cs: seq<Node>, kind: string): string
    decreases cs, 0
  {
    if cs == [] then "" else Strings(cs[0], kind) + StringsIn(cs[1..], kind)
  }

  /**
   * `n.string`: the string that is the only child, looked through one-child
   * chains; absent otherwise. It is the string whatever its kind.
   */
  function StringOf(n: Node): (r: Option<Node>)
    ensures r.Some? ==> r.value.TextNode?
  {
    match n
    case TextNode(_, _) => Some(n)
    case Element(_, _, _, cs) => if |cs| == 1 then StringOf(cs[0]) else None
  }

  predicate HasTag(n: Node, names: set<string>) {
    n.Element? && n.tag in names
  }

  /** The elements of `ns` whose tag is one of `names`, in order. */
  function WithTags(ns: seq<Node>, names: set<string>): (r: seq<Node>)
    ensures |r| <= |ns|
    ensures forall x :: x in r <==> x in ns && HasTag(x, names)
  {
    if ns == [] then []
    else (if HasTag(ns[0], names) then [ns[0]] else []) + WithTags(ns[1..], names)
  }

  /** `n.find_all([names...])`. */
  function FindAll(n: Node, names: set<string>): (r: seq<Node>)
    ensures forall k :: 0 <= k < |r| ==> r[k].Element? && r[k].tag in names
  {
    var ds := Descendants(n);
    var r := WithTags(ds, names);
    assert forall k :: 0 <= k < |r| ==> r[k] in r;
    r
  }

  /** The elements of `ns` that `keep` accepts, in order. */
  function Filter(ns: seq<Node>, keep: Node -> bool): (r: seq<Node>)
    ensures |r| <= |ns|
  {
    if ns == [] then []
    else (if keep(ns[0]) then [ns[0]] else []) + Filter(ns[1..], keep)
  }

  /** `Filter` keeps exactly the elements `keep` accepts. */
  lemma {:induction false} FilterMembers(ns: seq<Node>, keep: Node -> bool)
    ensures forall x :: x in Filter(ns, keep) <==> x in ns && keep(x)
  {
    if ns != [] {
      FilterMembers(ns[1..], keep);
      assert forall x :: x in ns <==> x == ns[0] || x in ns[1..];
    }
  }

  function Take<T>(xs: seq<T>, n: nat): (r: seq<T>)
    ensures |r| == Min(n, |xs|) && r == xs[..|r|]
  {
    if |xs| <= n then xs else xs[..n]
  }

  /** The value of the attribute called `name` (names are unique). */
  function AttrValue(attrs: seq<(string, string)>, name: string): Option<string> {
    if attrs == [] then None
    else if attrs[0].0 == name then Some(attrs[0].1)
    else AttrValue(attrs[1..], name)
  }

  /** `el.get(name)`. */
  function Get(n: Node, name: string): Option<string> {
    if n.Element? then AttrValue(n.attrs, name) else None
  }

  /**
   * A `class_=lambda x: x and term in x.lower()` filter: BeautifulSoup
   * offers the lambda each class token and then the space-joined list; for
   * a term without spaces the joined form matches only when a token does.
   */
  predicate ClassTokenContains(n: Node, term: string) {
    n.Element? && exists k :: 0 <= k < |n.classes| && Contains(Lower(n.classes[k]), term)
  }

  /** `' '.join(el.get('class', [])).lower()`. */
  function ClassString(n: Node): string {
    if n.Element? then Lower(Join(n.classes, " ")) else ""
  }
}
