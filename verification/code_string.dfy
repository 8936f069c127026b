/** `codeString(_:)`: renders a reflected value as Swift-literal-like text.
    Swift's runtime reflection (`Mirror`, `displayStyle`,
    `String(describing:)`) is replaced by the `Value` datatype: each
    constructor is one display style, and the text `String(describing:)`
    would print is carried as an opaque `description`. */
module CodeString {
  import opened Wrappers

  /** A child of a mirror: an optional label and the child value. */
  datatype Child = Child(name: Option<string>, value: Value)

  /** One key/value pair of a dictionary's mirror. */
  datatype Entry = Entry(key: Value, value: Value)

  datatype Value =
      /** a value whose dynamic type is `String` (checked before reflection) */
    | Str(text: string)
      /** a value whose mirror has no display style (Int, Bool, Double, ...) */
    | Leaf(description: string)
      /** an enum; `payload` is the first child of its mirror, if any */
    | Enum(description: string, payload: Option<Child>)
      /** a struct or a class, with its full type name */
    | Struct(typeName: string, fields: seq<Child>)
    | Tuple(elements: seq<Child>)
    | Optional(wrapped: Option<Value>)
    | Collection(items: seq<Child>)
    | SetOf(members: seq<Child>)
    | Dictionary(entries: seq<Entry>)
      /** any other display style (a foreign reference, say) */
    | Opaque(description: string)

  // ---------------------------------------------------------------------
  // Text helpers

  /** The parts joined by ", ", as the `isFirst` loops of the renderer build them. */
  function Join(parts: seq<string>): string
  {
    if |parts| == 0 then ""
    else if |parts| == 1 then parts[0]
    else parts[0] + ", " + Join(parts[1..])
  }

  /** A string between double quotes, with no escaping. */
  function Quote(s: string): string
  {
    "\"" + s + "\""
  }

  /** `String(s.dropFirst().dropLast())`. */
  function DropFirstAndLast(s: string): string
  {
    if |s| < 2 then "" else s[1..|s| - 1]
  }

  predicate StartsWithDot(s: string)
  {
    |s| > 0 && s[0] == '.'
  }

  /** The length of the longest prefix of `s` without `sep`. */
  function RunLength(s: string, sep: char): (k: nat)
    ensures k <= |s|
    ensures forall i :: 0 <= i < k ==> s[i] != sep
    ensures k < |s| ==> s[k] == sep
  {
    if |s| == 0 || s[0] == sep then 0 else 1 + RunLength(s[1..], sep)
  }

  /** `s.split(separator: sep)`: the maximal runs of characters other than
      `sep`, empty runs omitted (Swift's default). */
  function Split(s: string, sep: char): seq<string>
    decreases |s|
  {
    if |s| == 0 then []
    else if s[0] == sep then Split(s[1..], sep)
    else
      var k := RunLength(s, sep);
      [s[..k]] + Split(s[k..], sep)
  }

  /** `name.split(separator: ".").last ?? name`: the unqualified type name. */
  function ShortName(name: string): string
  {
    var parts := Split(name, '.');
    if |parts| == 0 then name else parts[|parts| - 1]
  }

  /** The index of the first child without a label, or the child count. */
  function FirstUnnamed(cs: seq<Child>): (k: nat)
    ensures k <= |cs|
    ensures forall i :: 0 <= i < k ==> cs[i].name.Some?
    ensures k < |cs| ==> cs[k].name.None?
  {
    if |cs| == 0 || cs[0].name.None? then 0 else 1 + FirstUnnamed(cs[1..])
  }

  /** A tuple element: `label: ` only for a label that does not start with `.`. */
  function TupleItem(name: Option<string>, text: string): string
  {
    if name.Some? && !StartsWithDot(name.value) then name.value + ": " + text else text
  }

  /** A collection or set element: a present label is rendered as a string. */
  function CollectionItem(name: Option<string>, text: string): string
  {
    if name.Some? then Quote(name.value) + ": " + text else text
  }

  // ---------------------------------------------------------------------
  // The renderer

  /** `codeString(v)`. A struct or class stops at its first unlabelled field
      and returns what it has built so far, and an enum whose payload has no
      label renders as nothing: the source's `assertionFailure()` does not
      stop a release build. */
  function Render(v: Value): string
    decreases v, 1
  {
    match v
    case Str(s) => Quote(s)
    case Leaf(d) => d
    case Opaque(d) => d
    case Enum(d, p) =>
      if p.None? then "." + d
      else if p.value.name.None? then ""
      else
        var text := Render(p.value.value);
        "." + p.value.name.value + "(" + (if p.value.value.Tuple? then DropFirstAndLast(text) else text) + ")"
    case Struct(n, fs) =>
      ShortName(n) + "(" + Join(StructItems(v)) + (if FirstUnnamed(fs) == |fs| then ")" else "")
    case Tuple(cs) =>
      "(" + Join(TupleItems(v)) + ")"
    case Optional(w) =>
      if w.None? then "nil" else Render(w.value)
    case Collection(cs) =>
      "[" + Join(CollectionItems(v)) + "]"
    case SetOf(cs) =>
      "Set([" + Join(CollectionItems(v)) + "])"
    case Dictionary(es) =>
      "[" + Join(DictionaryItems(v)) + "]"
  }

  /** The rendered `label: value` fields of a struct, up to its first
      unlabelled field. */
  function StructItems(v: Value): (items: seq<string>)
    requires v.Struct?
    ensures |items| == FirstUnnamed(v.fields)
    decreases v, 0
  {
    var fs := v.fields;
    var k := FirstUnnamed(fs);
    seq(k, i requires 0 <= i < k => fs[i].name.value + ": " + Render(fs[i].value))
  }

  /** The rendered elements of a tuple. */
  function TupleItems(v: Value): (items: seq<string>)
    requires v.Tuple?
    ensures |items| == |v.elements|
    decreases v, 0
  {
    var cs := v.elements;
    seq(|cs|, i requires 0 <= i < |cs| => TupleItem(cs[i].name, Render(cs[i].value)))
  }

  /** The rendered `key: value` entries of a dictionary. */
  function DictionaryItems(v: Value): (items: seq<string>)
    requires v.Dictionary?
    ensures |items| == |v.entries|
    decreases v, 0
  {
    var es := v.entries;
    seq(|es|, i requires 0 <= i < |es| => Render(es[i].key) + ": " + Render(es[i].value))
  }

  /** The children of a collection or a set. */
  function Members(v: Value): seq<Child>
    requires v.Collection? || v.SetOf?
  {
    if v.Collection? then v.items else v.members
  }

  /** The rendered elements of a collection or a set. */
  function CollectionItems(v: Value): (items: seq<string>)
    requires v.Collection? || v.SetOf?
    ensures |items| == |Members(v)|
    decreases v, 0
  {
    var cs := Members(v);
    seq(|cs|, i requires 0 <= i < |cs| => CollectionItem(cs[i].name, Render(cs[i].value)))
  }

  // ---------------------------------------------------------------------
  // Properties

  lemma {:induction false} JoinAppend(parts: seq<string>, x: string)
    ensures Join(parts + [x]) == if |parts| == 0 then x else Join(parts) + ", " + x
    decreases |parts|
  {
    if |parts| > 1 {
      assert (parts + [x])[1..] == parts[1..] + [x];
      JoinAppend(parts[1..], x);
    } else if |parts| == 1 {
      assert (parts + [x])[1..] == [x];
    }
  }

  /** A string renders as exactly its characters between double quotes:
      nothing is escaped. */
  lemma StringIsQuoted(s: string)
    ensures var r := Render(Str(s));
      && |r| == |s| + 2 && r[0] == '"' && r[|r| - 1] == '"'
      && DropFirstAndLast(r) == s
  {
  }

  /** A value without display style, and one of an unknown display style,
      renders as its description, unchanged. */
  lemma DescriptionIsVerbatim(d: string)
    ensures Render(Leaf(d)) == d
    ensures Render(Opaque(d)) == d
  {
  }

  /** `w` wrapped in `depth` present optionals. */
  function Wrap(w: Value, depth: nat): (r: Value)
    ensures depth > 0 ==> r.Optional? && r.wrapped.Some?
  {
    if depth == 0 then w else Optional(Some(Wrap(w, depth - 1)))
  }

  /** An absent optional renders as `nil`; any number of present-optional
      layers are invisible in the output. */
  lemma {:induction false} OptionalIsInvisible(w: Value, depth: nat)
    ensures Render(Optional(None)) == "nil"
    ensures Render(Wrap(w, depth)) == Render(w)
  {
    if depth > 0 {
      OptionalIsInvisible(w, depth - 1);
    }
  }

  /** A tuple renders between one pair of parentheses, so dropping its first
      and last characters leaves exactly the joined elements; the empty
      tuple renders as `()`. */
  lemma TupleIsParenthesized(cs: seq<Child>)
    ensures var r := Render(Tuple(cs));
      && |r| >= 2 && r[0] == '(' && r[|r| - 1] == ')'
      && DropFirstAndLast(r) == Join(TupleItems(Tuple(cs)))
    ensures cs == [] ==> Render(Tuple(cs)) == "()"
  {
    var r := Render(Tuple(cs));
    assert r == "(" + Join(TupleItems(Tuple(cs))) + ")";
  }

  /** An enum case without payload renders as `.` and its description; with
      a labelled payload as `.label(payload)`, where a tuple payload keeps a
      single pair of parentheses; an unlabelled payload gives nothing. */
  lemma EnumRendering(d: string, l: string, payload: Value)
    ensures Render(Enum(d, None)) == "." + d
    ensures Render(Enum(d, Some(Child(None, payload)))) == ""
    ensures !payload.Tuple? ==>
      Render(Enum(d, Some(Child(Some(l), payload)))) == "." + l + "(" + Render(payload) + ")"
    ensures payload.Tuple? ==>
      Render(Enum(d, Some(Child(Some(l), payload)))) == "." + l + Render(payload)
  {
    if payload.Tuple? {
      TupleIsParenthesized(payload.elements);
      var r := Render(payload);
      assert r == "(" + DropFirstAndLast(r) + ")";
    }
  }

  /** Labels decide only the prefix of a tuple element: a label starting
      with `.` (a positional label such as `.0`) reads as no label at all. */
  lemma {:induction false} PositionalLabelsInvisible(cs: seq<Child>, ds: seq<Child>)
    requires |cs| == |ds|
    requires forall i :: 0 <= i < |cs| ==> cs[i].value == ds[i].value
    requires forall i :: 0 <= i < |cs| ==>
      cs[i].name == ds[i].name
      || (cs[i].name.Some? && StartsWithDot(cs[i].name.value) && ds[i].name.None?)
    ensures Render(Tuple(cs)) == Render(Tuple(ds))
  {
    assert TupleItems(Tuple(cs)) == TupleItems(Tuple(ds));
  }

  /** Elements are rendered in order, and a label shown prefixes its element
      with `label: `: appending an element to a tuple of any length appends
      its text (after ", " unless it is the first) before the closing
      parenthesis, with the label unless it starts with `.`. */
  lemma TupleLabelShown(cs: seq<Child>, l: string, v: Value)
    ensures var r := Render(Tuple(cs));
      Render(Tuple(cs + [Child(Some(l), v)])) ==
        r[..|r| - 1] + (if cs == [] then "" else ", ")
          + (if StartsWithDot(l) then "" else l + ": ") + Render(v) + ")"
  {
    var items := TupleItems(Tuple(cs));
    var prefix := if StartsWithDot(l) then "" else l + ": ";
    TupleItemsAppend(cs, Child(Some(l), v));
    ShownItem(l, Render(v));
    RenderTuple(cs);
    RenderTuple(cs + [Child(Some(l), v)]);
    CloseAppend("(", items, prefix + Render(v), ")");
    var r := Render(Tuple(cs));
    Regroup(r[..|r| - 1] + (if cs == [] then "" else ", "), prefix, Render(v), ")");
  }

  // Appending a child appends its rendered item.
  lemma TupleItemsAppend(cs: seq<Child>, c: Child)
    ensures TupleItems(Tuple(cs + [c])) == TupleItems(Tuple(cs)) + [TupleItem(c.name, Render(c.value))]
  {
  }

  // The tuple branch of the renderer, as a fact to call on demand.
  lemma RenderTuple(cs: seq<Child>)
    ensures Render(Tuple(cs)) == "(" + Join(TupleItems(Tuple(cs))) + ")"
  {
  }

  // A present label is shown unless it starts with a dot.
  lemma ShownItem(l: string, text: string)
    ensures TupleItem(Some(l), text) == (if StartsWithDot(l) then "" else l + ": ") + text
  {
    if StartsWithDot(l) {
      assert "" + text == text;
    }
  }

  // Concatenation regrouped.
  lemma Regroup(head: string, prefix: string, text: string, close: string)
    ensures head + (prefix + text) + close == head + prefix + text + close
  {
  }

  /** The string algebra behind appending to a bracketed, comma-separated
      list: drop the closing bracket, add the separator and the new item,
      close again. */
  lemma CloseAppend(open: string, items: seq<string>, item: string, close: string)
    requires |close| == 1
    ensures var r := open + Join(items) + close;
      open + Join(items + [item]) + close ==
        r[..|r| - 1] + (if items == [] then "" else ", ") + item + close
  {
    var j := Join(items);
    var r := open + j + close;
    assert r[..|r| - 1] == open + j;
    JoinAppend(items, item);
    if items == [] {
      assert open + j == open;
    } else {
      assert open + Join(items + [item]) == open + j + ", " + item;
    }
  }

  /** A struct or class whose fields are all labelled, none with a leading
      `.`, renders as its short type name followed by the tuple of its
      fields; with no fields that is `Name()`. */
  lemma StructIsNamedTuple(n: string, fs: seq<Child>)
    requires forall i :: 0 <= i < |fs| ==> fs[i].name.Some? && !StartsWithDot(fs[i].name.value)
    ensures Render(Struct(n, fs)) == ShortName(n) + Render(Tuple(fs))
    ensures fs == [] ==> Render(Struct(n, fs)) == ShortName(n) + "()"
  {
    assert FirstUnnamed(fs) == |fs|;
    assert StructItems(Struct(n, fs)) == TupleItems(Tuple(fs));
  }

  /** At the first unlabelled field the renderer returns early: the output is
      the rendering of the labelled fields before it, without the closing
      parenthesis. */
  lemma StructStopsAtUnlabelledField(n: string, fs: seq<Child>)
    requires FirstUnnamed(fs) < |fs|
    ensures Render(Struct(n, fs)) + ")" == Render(Struct(n, fs[..FirstUnnamed(fs)]))
  {
    var pre := fs[..FirstUnnamed(fs)];
    StructItemsOfPrefix(n, fs);
    var head := ShortName(n) + "(" + Join(StructItems(Struct(n, fs)));
    RenderStruct(n, fs);
    RenderStruct(n, pre);
    assert head + "" == head;
  }

  lemma RenderStruct(n: string, fs: seq<Child>)
    ensures Render(Struct(n, fs)) ==
      ShortName(n) + "(" + Join(StructItems(Struct(n, fs))) + (if FirstUnnamed(fs) == |fs| then ")" else "")
  {
  }

  /** The labelled prefix of a struct's fields renders the same fields. */
  lemma StructItemsOfPrefix(n: string, fs: seq<Child>)
    ensures FirstUnnamed(fs[..FirstUnnamed(fs)]) == FirstUnnamed(fs)
    ensures StructItems(Struct(n, fs[..FirstUnnamed(fs)])) == StructItems(Struct(n, fs))
  {
    FirstUnnamedOfPrefix(fs, FirstUnnamed(fs));
  }

  lemma {:induction false} FirstUnnamedOfPrefix(fs: seq<Child>, k: nat)
    requires k <= |fs|
    requires forall i :: 0 <= i < k ==> fs[i].name.Some?
    ensures FirstUnnamed(fs[..k]) == k
    decreases k
  {
    if k > 0 {
      assert fs[..k][1..] == fs[1..][..k - 1];
      FirstUnnamedOfPrefix(fs[1..], k - 1);
    }
  }

  /** `r` sits at the end of `s`: preceded by nothing or a separator and
      followed by separators only. */
  ghost predicate EndsWithSegment(s: string, r: string, sep: char)
  {
    exists pre, post ::
      && s == pre + r + post
      && (|pre| == 0 || pre[|pre| - 1] == sep)
      && (forall i :: 0 <= i < |post| ==> post[i] == sep)
  }

  predicate AllSep(s: string, sep: char)
  {
    forall i :: 0 <= i < |s| ==> s[i] == sep
  }

  /** The unqualified name is the last non-empty `.`-separated segment:
      non-empty, free of dots, preceded by nothing or a dot and followed only
      by dots. A name made of dots alone (or empty) is kept whole. */
  lemma ShortNameIsLastSegment(name: string)
    ensures AllSep(name, '.') ==> ShortName(name) == name
    ensures !AllSep(name, '.') ==>
      var r := ShortName(name);
      && |r| > 0
      && (forall i :: 0 <= i < |r| ==> r[i] != '.')
      && EndsWithSegment(name, r, '.')
  {
    SplitEmptyIffAllSep(name, '.');
    if !AllSep(name, '.') {
      LastOfSplit(name, '.');
      SplitPiecesClean(name, '.');
    }
  }

  lemma {:induction false} SplitEmptyIffAllSep(s: string, sep: char)
    ensures |Split(s, sep)| == 0 <==> AllSep(s, sep)
    decreases |s|
  {
    if |s| > 0 && s[0] == sep {
      SplitEmptyIffAllSep(s[1..], sep);
      assert AllSep(s, sep) <==> AllSep(s[1..], sep) by {
        assert forall i :: 1 <= i < |s| ==> s[i] == s[1..][i - 1];
      }
    }
  }

  /** Every piece of a split is non-empty and free of the separator. */
  lemma {:induction false} SplitPiecesClean(s: string, sep: char)
    ensures forall j, i :: 0 <= j < |Split(s, sep)| && 0 <= i < |Split(s, sep)[j]| ==> Split(s, sep)[j][i] != sep
    ensures forall j :: 0 <= j < |Split(s, sep)| ==> |Split(s, sep)[j]| > 0
    decreases |s|
  {
    if |s| > 0 {
      if s[0] == sep {
        SplitPiecesClean(s[1..], sep);
      } else {
        var k := RunLength(s, sep);
        SplitPiecesClean(s[k..], sep);
      }
    }
  }

  lemma {:induction false} LastOfSplit(s: string, sep: char)
    requires |Split(s, sep)| > 0
    ensures EndsWithSegment(s, Split(s, sep)[|Split(s, sep)| - 1], sep)
    decreases |s|
  {
    var parts := Split(s, sep);
    var r := parts[|parts| - 1];
    if s[0] == sep {
      var t := s[1..];
      assert parts == Split(t, sep);
      LastOfSplit(t, sep);
      var rt := Split(t, sep)[|Split(t, sep)| - 1];
      assert rt == r;
      ExtendSegment([sep], t, rt, sep);
      assert s == [sep] + t;
    } else {
      SplitPiecesClean(s, sep);
      var k := RunLength(s, sep);
      var t := s[k..];
      var rest := Split(t, sep);
      assert parts == [s[..k]] + rest;
      assert s == s[..k] + t;
      SplitEmptyIffAllSep(t, sep);
      if |rest| == 0 {
        assert r == s[..k];
        assert s == [] + r + t;
      } else {
        assert r == rest[|rest| - 1];
        LastOfSplit(t, sep);
        ExtendSegment(s[..k], t, r, sep);
      }
    }
  }

  lemma ExtendSegment(x: string, t: string, r: string, sep: char)
    requires EndsWithSegment(t, r, sep)
    requires (|x| > 0 && x[|x| - 1] == sep) || (|t| > 0 && t[0] == sep && |r| > 0 && r[0] != sep)
    ensures EndsWithSegment(x + t, r, sep)
  {
    var pre, post :| t == pre + r + post && (|pre| == 0 || pre[|pre| - 1] == sep)
      && (forall i :: 0 <= i < |post| ==> post[i] == sep);
    assert |pre| == 0 && |r| > 0 ==> t[0] == r[0];
    var xp := x + pre;
    assert |xp| == 0 || xp[|xp| - 1] == sep by {
      if |pre| > 0 {
        assert xp[|xp| - 1] == pre[|pre| - 1];
      }
    }
    assert x + t == xp + r + post;
    SegmentWitness(x + t, xp, r, post, sep);
  }

  lemma SegmentWitness(s: string, pre: string, r: string, post: string, sep: char)
    requires s == pre + r + post
    requires |pre| == 0 || pre[|pre| - 1] == sep
    requires forall i :: 0 <= i < |post| ==> post[i] == sep
    ensures EndsWithSegment(s, r, sep)
  {
  }

  /** A set renders as `Set(` around the rendering of an array with the same
      children. */
  lemma SetIsWrappedArray(cs: seq<Child>)
    ensures Render(SetOf(cs)) == "Set(" + Render(Collection(cs)) + ")"
  {
    assert CollectionItems(SetOf(cs)) == CollectionItems(Collection(cs));
  }

  /** Children are rendered in the order given: appending a child appends its
      text (after ", " unless it is the first) before the closing bracket. */
  lemma AppendToCollection(cs: seq<Child>, c: Child)
    ensures var r := Render(Collection(cs));
      Render(Collection(cs + [c])) ==
        r[..|r| - 1] + (if cs == [] then "" else ", ") + CollectionItem(c.name, Render(c.value)) + "]"
  {
    var items := CollectionItems(Collection(cs));
    var item := CollectionItem(c.name, Render(c.value));
    assert CollectionItems(Collection(cs + [c])) == items + [item];
    CloseAppend("[", items, item, "]");
  }

  /** Nothing is sorted: a set renders its members in mirror order. */
  lemma SetKeepsMirrorOrder()
    ensures Render(SetOf([Child(None, Leaf("3")), Child(None, Leaf("1")), Child(None, Leaf("2"))]))
      == "Set([3, 1, 2])"
  {
    var cs := [Child(None, Leaf("3")), Child(None, Leaf("1")), Child(None, Leaf("2"))];
    assert CollectionItems(SetOf(cs)) == ["3", "1", "2"];
  }

  /** Empty containers: `[]`, `Set([])`, and `[]` again for a dictionary,
      so an empty dictionary cannot be told from an empty array. */
  lemma EmptyContainers()
    ensures Render(Collection([])) == "[]"
    ensures Render(SetOf([])) == "Set([])"
    ensures Render(Dictionary([])) == "[]"
    ensures Render(Dictionary([])) == Render(Collection([]))
  {
  }

  /** A dictionary with string keys renders like a collection whose children
      carry those keys as labels: `["k": v, ...]`, in entry order. */
  lemma StringKeyedDictionaryIsLabelledCollection(es: seq<Entry>, cs: seq<Child>)
    requires |es| == |cs|
    requires forall i :: 0 <= i < |es| ==>
      es[i].key.Str? && cs[i] == Child(Some(es[i].key.text), es[i].value)
    ensures Render(Dictionary(es)) == Render(Collection(cs))
  {
    assert DictionaryItems(Dictionary(es)) == CollectionItems(Collection(cs));
  }

  /** Entries are rendered in mirror order, whatever the kind of key:
      appending an entry appends `key: value` (after ", " unless it is the
      first) before the closing bracket. */
  lemma DictionaryAppend(es: seq<Entry>, e: Entry)
    ensures var r := Render(Dictionary(es));
      Render(Dictionary(es + [e])) ==
        r[..|r| - 1] + (if es == [] then "" else ", ") + Render(e.key) + ": " + Render(e.value) + "]"
  {
    var items := DictionaryItems(Dictionary(es));
    var key := Render(e.key);
    var value := Render(e.value);
    DictionaryItemsAppend(es, e);
    RenderDictionary(es);
    RenderDictionary(es + [e]);
    CloseAppend("[", items, key + ": " + value, "]");
    var r := Render(Dictionary(es));
    var head := r[..|r| - 1] + (if es == [] then "" else ", ");
    Regroup(head, key + ": ", value, "]");
    Regroup(head, key, ": ", "");
  }

  // Appending an entry appends its rendered item.
  lemma DictionaryItemsAppend(es: seq<Entry>, e: Entry)
    ensures DictionaryItems(Dictionary(es + [e])) ==
      DictionaryItems(Dictionary(es)) + [Render(e.key) + ": " + Render(e.value)]
  {
  }

  // The dictionary branch of the renderer, as a fact to call on demand.
  lemma RenderDictionary(es: seq<Entry>)
    ensures Render(Dictionary(es)) == "[" + Join(DictionaryItems(Dictionary(es))) + "]"
  {
  }

  /** The source's one-entry `[Int: String]` example: `[1: "a"]`. */
  lemma IntKeyedDictionary()
    ensures Render(Dictionary([Entry(Leaf("1"), Str("a"))])) == "[1: \"a\"]"
  {
    DictionaryAppend([], Entry(Leaf("1"), Str("a")));
    assert [] + [Entry(Leaf("1"), Str("a"))] == [Entry(Leaf("1"), Str("a"))];
    assert Render(Dictionary([])) == "[]";
  }

  /** The mirror of `.three(.two("a", int: 1))`: the inner case's payload
      is a tuple with one positional and one named element. */
  function TwoPayload(): Value
  {
    Tuple([Child(Some(".0"), Str("a")), Child(Some("int"), Leaf("1"))])
  }

  function Two(): Value
  {
    Enum("two(\"a\", int: 1)", Some(Child(Some("two"), TwoPayload())))
  }

  function ThreeTwo(): Value
  {
    Enum("three(two(\"a\", int: 1))", Some(Child(Some("three"), Two())))
  }

  lemma TwoPayloadRendering()
    ensures Render(TwoPayload()) == "(\"a\", int: 1)"
  {
    assert StartsWithDot(".0") && !StartsWithDot("int");
    assert Render(Str("a")) == "\"a\"";
    var items := TupleItems(TwoPayload());
    assert items[0] == "\"a\"" && items[1] == "int: 1";
    assert items == ["\"a\"", "int: 1"];
  }

  lemma TwoRendering()
    ensures Render(Two()) == ".two(\"a\", int: 1)"
  {
    TwoPayloadRendering();
    EnumRendering("two(\"a\", int: 1)", "two", TwoPayload());
    TwoText();
  }

  lemma TwoText()
    ensures "." + "two" + "(\"a\", int: 1)" == ".two(\"a\", int: 1)"
  {
  }

  lemma ThreeText()
    ensures "." + "three" + "(" + ".two(\"a\", int: 1)" + ")" == ".three(.two(\"a\", int: 1))"
  {
  }

  /** The nested case renders as the Swift expression that builds it. */
  lemma ThreeTwoRendering()
    ensures Render(ThreeTwo()) == ".three(.two(\"a\", int: 1))"
  {
    TwoRendering();
    EnumRendering("three(two(\"a\", int: 1))", "three", Two());
    ThreeText();
  }
}
