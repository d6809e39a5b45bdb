/** The traversal engine of walker.go, with Go reflection replaced by a closed
    datatype of values. `walk` becomes `WalkFrom`, a total function returning the
    ordered trace of visitor calls; `WalkInto` is the same traversal written, as in
    the source, with one loop per container kind appending each visitor call. */
module Walker {
  import opened Wrappers
  import opened Seqs

  /** The parts of a `reflect.StructField` that the walker looks at: the declared
      field name and the value of its `json` struct tag ("" when there is none). */
  datatype FieldDesc = FieldDesc(name: string, jsonTag: string)

  /** A value as the walker sees it, classified by its reflect kind.
      - Struct: fields in declaration order, each with its descriptor;
      - Slice: elements in index order;
      - Array: a fixed-size Go array, a kind that `walk` does not handle;
      - Map: entries in the order one iteration of the map enumerates them
        (keys are strings and distinct in any real map);
      - Ptr: a pointer, `None` when nil;
      - Iface: a struct field, slice element or map value of interface type,
        holding its dynamic value (`Invalid` when nil). The visitor receives
        the interface-kind value itself, but `walk` never does: every child
        is passed on through `Interface()` and the root through an
        `interface{}` parameter, both of which hand over the dynamic value;
      - Scalar: any other kind (numbers, strings, channels, functions, ...);
      - Invalid: the zero `reflect.Value`. */
  datatype Value =
    | Struct(fields: seq<(FieldDesc, Value)>)
    | Slice(elems: seq<Value>)
    | Array(items: seq<Value>)
    | Map(entries: seq<(string, Value)>)
    | Ptr(target: Option<Value>)
    | Iface(inner: Value)
    | Scalar(text: string)
    | Invalid

  /** One call of the visitor: the child value, the branch of nodes `walk` was
      entered with on the way down (ending with the container of the child), the
      path including the child's own segment, and the field descriptor, present
      exactly for struct fields. */
  datatype Event = Event(value: Value, branch: seq<Value>, path: seq<string>, field: Option<FieldDesc>)

  /** `unicode.ToLower` restricted to ASCII: upper-case letters map to lower case,
      every other character is unchanged. */
  function ToLower(c: char): (r: char)
    ensures 'A' <= c <= 'Z' ==> 'a' <= r <= 'z' && r as int == c as int + 32
    ensures !('A' <= c <= 'Z') ==> r == c
  {
    if 'A' <= c <= 'Z' then (c as int + 32) as char else c
  }

  /** `getFieldKey`: the json tag verbatim unless it is "" or "-"; otherwise the
      field name with its first character lower-cased, or the tag itself when
      the name is empty (the range loop then has no iteration). */
  function FieldKey(f: FieldDesc): (key: string)
    ensures f.jsonTag != "" && f.jsonTag != "-" ==> key == f.jsonTag
    ensures (f.jsonTag == "" || f.jsonTag == "-") && f.name != "" ==>
              |key| == |f.name| && key[0] == ToLower(f.name[0]) && key[1..] == f.name[1..]
    ensures (f.jsonTag == "" || f.jsonTag == "-") && f.name == "" ==> key == f.jsonTag
  {
    if (f.jsonTag == "-" || f.jsonTag == "") && |f.name| > 0 then
      [ToLower(f.name[0])] + f.name[1..]
    else
      f.jsonTag
  }

  predicate IsDigit(c: char) {
    '0' <= c <= '9'
  }

  function DigitChar(d: nat): (c: char)
    requires d < 10
    ensures IsDigit(c)
  {
    ('0' as int + d) as char
  }

  /** `strconv.Itoa` on a non-negative index: its decimal digits, most
      significant first, with no leading zero. */
  function Itoa(n: nat): (s: string)
    ensures |s| >= 1
    ensures forall k :: 0 <= k < |s| ==> IsDigit(s[k])
    ensures s[0] == '0' ==> s == "0"
    decreases n
  {
    if n < 10 then [DigitChar(n)] else Itoa(n / 10) + [DigitChar(n % 10)]
  }

  /** The number of children the walker iterates over in `v`: struct fields,
      slice elements and map entries. Every other kind has none. */
  function Arity(v: Value): nat {
    match v
    case Struct(fs) => |fs|
    case Slice(es) => |es|
    case Map(ms) => |ms|
    case _ => 0
  }

  function ChildAt(v: Value, i: nat): Value
    requires i < Arity(v)
  {
    match v
    case Struct(fs) => fs[i].1
    case Slice(es) => es[i]
    case Map(ms) => ms[i].1
  }

  /** The path segment of the i-th child: the field key, the decimal index or
      the map key. */
  function SegmentAt(v: Value, i: nat): string
    requires i < Arity(v)
  {
    match v
    case Struct(fs) => FieldKey(fs[i].0)
    case Slice(_) => Itoa(i)
    case Map(ms) => ms[i].0
  }

  function FieldAt(v: Value, i: nat): (f: Option<FieldDesc>)
    requires i < Arity(v)
    ensures f.Some? <==> v.Struct?
  {
    match v
    case Struct(fs) => Some(fs[i].0)
    case _ => None
  }

  /** The visitor call for the i-th child of the container `v`, made with the
      branch `b` (which already ends with `v`) below the path `p` of `v`. */
  function ChildEvent(v: Value, i: nat, b: seq<Value>, p: seq<string>): (e: Event)
    requires i < Arity(v)
    ensures e.branch == b && |e.path| == |p| + 1 && e.path[..|p|] == p
  {
    Event(ChildAt(v, i), b, p + [SegmentAt(v, i)], FieldAt(v, i))
  }

  /** `walk(node, branch, path, visitor)` as the trace of visitor calls it makes.
      An interface stands for the dynamic value `walk` is actually handed, so it
      is looked through before anything else and never enters the branch. For
      every other node, the node is appended to the branch; a nil pointer stops;
      a non-nil pointer is unwrapped with the same path; a struct, slice or map
      reports and descends into each child in turn; every other kind makes no
      call. */
  function WalkFrom(node: Value, branch: seq<Value>, path: seq<string>): seq<Event>
    decreases node, 1, 0
  {
    match node
    case Iface(t) => WalkFrom(t, branch, path)
    case Ptr(None) => []
    case Ptr(Some(t)) => WalkFrom(t, branch + [node], path)
    case _ => ChildrenFrom(node, 0, branch + [node], path)
  }

  /** The calls made by the loop over the children of `node` from index `i` on:
      for each child, the visitor call, then the child's own walk. */
  function ChildrenFrom(node: Value, i: nat, b: seq<Value>, path: seq<string>): seq<Event>
    requires i <= Arity(node)
    decreases node, 0, Arity(node) - i
  {
    if i == Arity(node) then []
    else
      var e := ChildEvent(node, i, b, path);
      [e] + WalkFrom(e.value, b, e.path) + ChildrenFrom(node, i + 1, b, path)
  }

  /** `Walk(s, visitor)`: the walk of the root with an empty branch and path. */
  function WalkTrace(root: Value): seq<Event> {
    WalkFrom(root, [], [])
  }

  /** `walk` as the source writes it: a recursive procedure that looks through
      an interface, appends the node to the branch and dispatches on its kind; `calls` is the sequence of
      visitor calls made so far, and the result extends it with this walk's. */
  method WalkInto(node: Value, branch: seq<Value>, path: seq<string>, calls: seq<Event>)
    returns (out: seq<Event>)
    ensures out == calls + WalkFrom(node, branch, path)
    decreases node, 1
  {
    match node {
      case Iface(inner) =>
        out := WalkInto(inner, branch, path, calls);
      case Ptr(target) =>
        if target.None? {
          return calls;
        }
        out := WalkInto(target.value, branch + [node], path, calls);
      case Struct(_) =>
        out := WalkFields(node, branch + [node], path, calls);
      case Slice(_) =>
        out := WalkElements(node, branch + [node], path, calls);
      case Map(_) =>
        out := WalkEntries(node, branch + [node], path, calls);
      case Array(_) =>
        out := calls;
      case Scalar(_) =>
        out := calls;
      case Invalid =>
        out := calls;
    }
  }

  /** The struct case of `walk`: for each field in declaration order, call the
      visitor with the field's key appended to the path, then walk the field. */
  method WalkFields(node: Value, b: seq<Value>, path: seq<string>, calls: seq<Event>)
    returns (out: seq<Event>)
    requires node.Struct?
    ensures out == calls + ChildrenFrom(node, 0, b, path)
    decreases node, 0
  {
    var fields := node.fields;
    out := calls;
    for i := 0 to |fields|
      invariant out + ChildrenFrom(node, i, b, path) == calls + ChildrenFrom(node, 0, b, path)
    {
      var (field, child) := fields[i];
      var childPath := path + [FieldKey(field)];
      assert ChildrenFrom(node, i, b, path) ==
        [Event(child, b, childPath, Some(field))] + WalkFrom(child, b, childPath) + ChildrenFrom(node, i + 1, b, path);
      AppendBlock(out, [Event(child, b, childPath, Some(field))], WalkFrom(child, b, childPath), ChildrenFrom(node, i + 1, b, path));
      out := out + [Event(child, b, childPath, Some(field))];
      out := WalkInto(child, b, childPath, out);
    }
  }

  /** The slice case of `walk`: for each index in order, call the visitor with
      the decimal index appended to the path, then walk the element. */
  method WalkElements(node: Value, b: seq<Value>, path: seq<string>, calls: seq<Event>)
    returns (out: seq<Event>)
    requires node.Slice?
    ensures out == calls + ChildrenFrom(node, 0, b, path)
    decreases node, 0
  {
    var elems := node.elems;
    out := calls;
    for i := 0 to |elems|
      invariant out + ChildrenFrom(node, i, b, path) == calls + ChildrenFrom(node, 0, b, path)
    {
      var child := elems[i];
      var childPath := path + [Itoa(i)];
      assert ChildrenFrom(node, i, b, path) ==
        [Event(child, b, childPath, None)] + WalkFrom(child, b, childPath) + ChildrenFrom(node, i + 1, b, path);
      AppendBlock(out, [Event(child, b, childPath, None)], WalkFrom(child, b, childPath), ChildrenFrom(node, i + 1, b, path));
      out := out + [Event(child, b, childPath, None)];
      out := WalkInto(child, b, childPath, out);
    }
  }

  /** The map case of `walk`: for each key in enumeration order, call the
      visitor with the key appended to the path, then walk the entry's value. */
  method WalkEntries(node: Value, b: seq<Value>, path: seq<string>, calls: seq<Event>)
    returns (out: seq<Event>)
    requires node.Map?
    ensures out == calls + ChildrenFrom(node, 0, b, path)
    decreases node, 0
  {
    var entries := node.entries;
    out := calls;
    for i := 0 to |entries|
      invariant out + ChildrenFrom(node, i, b, path) == calls + ChildrenFrom(node, 0, b, path)
    {
      var (key, child) := entries[i];
      var childPath := path + [key];
      assert ChildrenFrom(node, i, b, path) ==
        [Event(child, b, childPath, None)] + WalkFrom(child, b, childPath) + ChildrenFrom(node, i + 1, b, path);
      AppendBlock(out, [Event(child, b, childPath, None)], WalkFrom(child, b, childPath), ChildrenFrom(node, i + 1, b, path));
      out := out + [Event(child, b, childPath, None)];
      out := WalkInto(child, b, childPath, out);
    }
  }

  /** `Walk`: the calls made for the root, in order. */
  method Walk(root: Value) returns (calls: seq<Event>)
    ensures calls == WalkTrace(root)
  {
    calls := WalkInto(root, [], [], []);
  }
}
