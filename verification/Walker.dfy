/** The walk over the fields of an object, with the filters that cut it short. */
module Walking {
  import opened Bits
  import opened Streams
  import opened JsonCoding

  // ----- objects -----

  /** A reflected object: nothing, a value, bytes, a bit buffer, a compound or an array. */
  datatype Node =
    | Missing
    | Scalar(value: JsonValue)
    | ByteArray(bytes: seq<Byte>)
    | BitArray(data: seq<Byte>, bitSize: nat)
    | Compound(choice: Option<string>, fields: seq<Field>)
    | Array(elements: seq<Node>)

  datatype Field = Field(name: string, value: Node)

  /** The first field with a name. */
  function Find(fields: seq<Field>, name: string): (found: Option<nat>)
    ensures found.Some? ==> found.value < |fields| && fields[found.value].name == name
  {
    if fields == [] then None
    else if fields[0].name == name then Some(0)
    else
      match Find(fields[1..], name)
      case None => None
      case Some(i) => Some(i + 1)
  }

  /** The chosen field of a union or a choice, if there is one. */
  function Chosen(choice: string, fields: seq<Field>): (found: Option<nat>)
    ensures found.Some? ==> found.value < |fields|
  {
    if choice == "" then None else Find(fields, choice)
  }

  // ----- what an observer sees -----

  /** The calls an observer gets; elements of arrays come with their index. */
  datatype WalkEvent =
    | RootBegins
    | RootEnds
    | ArrayBegins(name: string)
    | ArrayEnds(name: string)
    | CompoundBegins(name: string, index: Option<nat>)
    | CompoundEnds(name: string, index: Option<nat>)
    | Visited(name: string, index: Option<nat>, node: Node)

  // ----- filters -----

  type Path = seq<string>

  /**
    The state of a filter: of the default one, of the depth filter, of the search of a subtree for a path, or of the
    filter that asks such searches what to show.
  */
  datatype Filter =
    | DefaultFilter
    | DepthFilter(maxDepth: nat, depth: nat)
    | SubtreeFilter(currentPath: Path, matches: bool)
    | RegexFilter(currentPath: Path)
  {
    /** States a filter can be in while something is walked. */
    predicate Ready(index: Option<nat>) {
      && (DepthFilter? ==> depth > 0)
      && ((SubtreeFilter? || RegexFilter?) && index.Some? ==> currentPath != [])
    }
  }

  function PathText(path: Path): string {
    if path == [] then ""
    else
      var front := PathText(path[..|path| - 1]);
      (if front != "" then front + "." else "") + path[|path| - 1]
  }

  /** The names with a point between each two of them. */
  lemma {:induction false} PathTextIs(path: Path)
    requires path != [] && forall i :: 0 <= i < |path| ==> path[i] != ""
    ensures PathText(path) == path[0] + (if |path| == 1 then "" else "." + PathText(path[1..]))
    ensures PathText(path) != ""
    decreases |path|
  {
    hide PathText;
    var n := |path| - 1;
    OneNameMore(path);
    assert path[..0] == [];
    if n > 0 {
      PathTextIs(path[..n]);
      assert path[1..][..n - 1] == path[1..n] && path[..n][1..] == path[1..n];
      OneNameMore(path[1..]);
      if n > 1 {
        PathTextIs(path[1..]);
        PathTextIs(path[1..n]);
        JoinNames(path[0], PathText(path[1..n]), path[n]);
      }
    }
  }

  lemma OneNameMore(path: Path)
    requires path != []
    ensures var front := PathText(path[..|path| - 1]);
            PathText(path) == (if front != "" then front + "." else "") + path[|path| - 1]
    ensures PathText([]) == ""
  {
  }

  lemma JoinNames(a: string, b: string, c: string)
    ensures (a + ("." + b)) + "." + c == a + ("." + (b + "." + c))
  {
  }

  function ElementName(name: string, index: nat): string {
    name + "[" + Decimal(index) + "]"
  }

  function AppendPath(path: Path, name: string, index: Option<nat>): Path
    requires index.Some? ==> path != []
  {
    match index
    case None => path + [name]
    case Some(i) => path[..|path| - 1] + [ElementName(name, i)]
  }

  function PopPath(path: Path, name: string, index: Option<nat>): Path
    requires path != []
  {
    match index
    case None => path[..|path| - 1]
    case Some(_) => path[..|path| - 1] + [name]
  }

  /** A filter has gone one step down from `f`. */
  predicate Entered(f: Filter, g: Filter, name: string, index: Option<nat>)
    requires f.Ready(index)
  {
    match f
    case DefaultFilter => g == f
    case DepthFilter(maxDepth, depth) => g == DepthFilter(maxDepth, depth + 1)
    case SubtreeFilter(path, _) => g.SubtreeFilter? && g.currentPath == AppendPath(path, name, index)
    case RegexFilter(path) => g.RegexFilter? && SameFront(AppendPath(path, name, index), g.currentPath)
  }

  /** The paths differ in their last names only. */
  predicate SameFront(p: Path, q: Path) {
    |p| == |q| && p != [] && p[..|p| - 1] == q[..|q| - 1]
  }

  /** What the elements of an array keep: the regular-expression filter changes the last name of its path. */
  predicate KeptInArray(f: Filter, g: Filter) {
    if f.RegexFilter? then g.RegexFilter? && SameFront(f.currentPath, g.currentPath) else Kept(f, g)
  }

  predicate KeptAt(f: Filter, g: Filter, index: Option<nat>) {
    if index.Some? then KeptInArray(f, g) else Kept(f, g)
  }

  /** Going back up undoes going down. */
  lemma BackUp(f: Filter, g: Filter, h: Filter, name: string, index: Option<nat>)
    requires f.Ready(index) && Entered(f, g, name, index) && (Kept(g, h) || KeptInArray(g, h))
    requires f.SubtreeFilter? && index.Some? ==> f.currentPath[|f.currentPath| - 1] == name
    ensures g.Ready(None) && g.Ready(Some(0)) && h.Ready(Some(0)) && KeptAt(f, AfterInner(h, name, index).filter, index)
  {
    if f.RegexFilter? {
      SameFrontBack(f.currentPath, g.currentPath, h.currentPath, name, index);
    }
  }

  lemma SameFrontBack(path: Path, q: Path, r: Path, name: string, index: Option<nat>)
    requires index.Some? ==> path != []
    requires SameFront(AppendPath(path, name, index), q) && (q == r || SameFront(q, r))
    ensures r != []
    ensures if index == None then PopPath(r, name, index) == path else SameFront(path, PopPath(r, name, index))
  {
    var p := AppendPath(path, name, index);
    assert p[..|p| - 1] == if index == None then path else path[..|path| - 1];
    if index != None {
      assert PopPath(r, name, index)[..|r| - 1] == r[..|r| - 1];
    }
  }

  lemma ValueBackUp(f: Filter, g: Filter, name: string, index: Option<nat>)
    requires f.Ready(index) && (if f.DepthFilter? then g == f else Entered(f, g, name, index))
    requires f.SubtreeFilter? && index.Some? ==> f.currentPath[|f.currentPath| - 1] == name
    ensures g.Ready(Some(0)) && KeptAt(f, AfterValue(g, name, index).filter, index)
  {
    KeptItself(g);
    if !f.DepthFilter? {
      BackUp(f, g, g, name, index);
    }
  }

  /** A decision of a filter and its new state. */
  datatype Decision = Decision(filter: Filter, go: bool)

  /** Before an array or a compound. */
  function BeforeInner(f: Filter, regex: string -> bool, name: string, index: Option<nat>, node: Node): (d: Decision)
    requires f.Ready(index)
    ensures Entered(f, d.filter, name, index)
  {
    match f
    case DefaultFilter => Decision(f, true)
    case DepthFilter(maxDepth, depth) => Decision(DepthFilter(maxDepth, depth + 1), depth <= maxDepth)
    case SubtreeFilter(path, _) =>
      var path' := AppendPath(path, name, index);
      Decision(SubtreeFilter(path', regex(PathText(path'))), !regex(PathText(path')))
    case RegexFilter(path) =>
      var path' := AppendPath(path, name, index);
      if node.Array? && !regex(PathText(path')) then BeforeElements(name, node.elements, 0, path', regex)
      else
        Decision(RegexFilter(path'), regex(PathText(path')) || (node.Compound? && SearchFinds(node, path', regex)))
  }

  /** What a search finds in a value; of a compound itself it does not look at the path. */
  predicate SearchFinds(node: Node, path: Path, regex: string -> bool) {
    if node.Compound? then SomeMatch(regex, PathsOfCompound(node.choice, node.fields, path)) else regex(PathText(path))
  }

  /** Whether to show an array: searches its elements; the path ends with the one in which something has been found. */
  function BeforeElements(name: string, elements: seq<Node>, i: nat, path: Path, regex: string -> bool): (d: Decision)
    requires path != [] && i <= |elements|
    ensures d.filter.RegexFilter? && SameFront(path, d.filter.currentPath)
    decreases |elements| - i
  {
    var path' := path[..|path| - 1] + [ElementName(name, i)];
    assert path'[..|path'| - 1] == path[..|path| - 1];
    if i == |elements| then Decision(RegexFilter(path[..|path| - 1] + [name]), false)
    else if SearchFinds(elements[i], path', regex) then Decision(RegexFilter(path'), true)
    else BeforeElements(name, elements, i + 1, path, regex)
  }

  function AfterInner(f: Filter, name: string, index: Option<nat>): Decision
    requires f.Ready(Some(0))
  {
    match f
    case DefaultFilter => Decision(f, true)
    case DepthFilter(maxDepth, depth) => Decision(DepthFilter(maxDepth, depth - 1), true)
    case SubtreeFilter(path, matches) => Decision(SubtreeFilter(PopPath(path, name, index), matches), !matches)
    case RegexFilter(path) => Decision(RegexFilter(PopPath(path, name, index)), true)
  }

  /** Before anything else; it is not a compound. */
  function BeforeValue(f: Filter, regex: string -> bool, name: string, index: Option<nat>): (d: Decision)
    requires f.Ready(index)
    ensures if f.DepthFilter? then d.filter == f else Entered(f, d.filter, name, index)
  {
    match f
    case DepthFilter(maxDepth, depth) => Decision(f, depth <= maxDepth)
    case RegexFilter(path) =>
      var path' := AppendPath(path, name, index);
      Decision(RegexFilter(path'), regex(PathText(path')))
    case _ => BeforeInner(f, regex, name, index, Missing)
  }

  function AfterValue(f: Filter, name: string, index: Option<nat>): Decision
    requires f.Ready(Some(0))
  {
    match f
    case DepthFilter(maxDepth, depth) => Decision(f, true)
    case _ => AfterInner(f, name, index)
  }

  // ----- the walk as a function -----

  /** The state of the filter after a part of the walk, what has been observed, and whether the walk goes on. */
  datatype Walk = Walk(filter: Filter, events: seq<WalkEvent>, go: bool)

  function Then(first: Walk, next: Walk): Walk {
    Walk(next.filter, first.events + next.events, next.go)
  }

  /** What the filter keeps: the depth, and the path but for the last name. */
  predicate Kept(f: Filter, g: Filter) {
    match f
    case DefaultFilter => g == f
    case DepthFilter(_, _) => g == f
    case SubtreeFilter(path, _) => g.SubtreeFilter? && g.currentPath == path
    case RegexFilter(path) => g == f
  }

  function WalkFields(fields: seq<Field>, f: Filter, regex: string -> bool): (w: Walk)
    requires f.Ready(None)
    ensures Kept(f, w.filter)
    decreases fields, 0
  {
    if fields == [] then Walk(f, [], true)
    else
      var first := WalkField(fields[0].name, fields[0].value, f, regex);
      if !first.go then first else Then(first, WalkFields(fields[1..], first.filter, regex))
  }

  /** All fields in turn, or only the chosen one. */
  function WalkCompound(choice: Option<string>, fields: seq<Field>, f: Filter, regex: string -> bool): (w: Walk)
    requires f.Ready(None)
    ensures Kept(f, w.filter)
    decreases fields, 1
  {
    if choice.None? then WalkFields(fields, f, regex)
    else
      match Chosen(choice.value, fields)
      case None => Walk(f, [], true)
      case Some(i) => WalkField(fields[i].name, fields[i].value, f, regex)
  }

  function WalkField(name: string, node: Node, f: Filter, regex: string -> bool): (w: Walk)
    requires f.Ready(None)
    ensures Kept(f, w.filter)
    decreases node, 2
  {
    if node.Array? then
      var before := BeforeInner(f, regex, name, None, node);
      BackUp(f, before.filter, before.filter, name, None);
      var inner :=
        if before.go then
          var walked := WalkElements(name, node.elements, 0, before.filter, regex);
          Walk(walked.filter, [ArrayBegins(name)] + walked.events + [ArrayEnds(name)], true)
        else Walk(before.filter, [], true);
      BackUp(f, before.filter, inner.filter, name, None);
      var after := AfterInner(inner.filter, name, None);
      Walk(after.filter, inner.events, after.go)
    else WalkFieldValue(name, None, node, f, regex)
  }

  function WalkElements(name: string, elements: seq<Node>, i: nat, f: Filter, regex: string -> bool): (w: Walk)
    requires f.Ready(Some(i)) && (f.SubtreeFilter? ==> f.currentPath[|f.currentPath| - 1] == name)
    ensures KeptInArray(f, w.filter)
    decreases elements, 0
  {
    if elements == [] then Walk(f, [], true)
    else
      var first := WalkFieldValue(name, Some(i), elements[0], f, regex);
      if !first.go then first else Then(first, WalkElements(name, elements[1..], i + 1, first.filter, regex))
  }

  function WalkFieldValue(name: string, index: Option<nat>, node: Node, f: Filter, regex: string -> bool): (w: Walk)
    requires f.Ready(index)
    requires f.SubtreeFilter? && index.Some? ==> f.currentPath[|f.currentPath| - 1] == name
    ensures KeptAt(f, w.filter, index)
    decreases node, 1
  {
    if node.Compound? then
      var before := BeforeInner(f, regex, name, index, node);
      BackUp(f, before.filter, before.filter, name, index);
      var inner :=
        if before.go then
          var walked := WalkCompound(node.choice, node.fields, before.filter, regex);
          Walk(walked.filter, [CompoundBegins(name, index)] + walked.events + [CompoundEnds(name, index)], true)
        else Walk(before.filter, [], true);
      BackUp(f, before.filter, inner.filter, name, index);
      var after := AfterInner(inner.filter, name, index);
      Walk(after.filter, inner.events, after.go)
    else
      var before := BeforeValue(f, regex, name, index);
      ValueBackUp(f, before.filter, name, index);
      var after := AfterValue(before.filter, name, index);
      Walk(after.filter, if before.go then [Visited(name, index, node)] else [], after.go)
  }

  // ----- the walker -----

  lemma ThenTwice(a: Walk, b: Walk, c: Walk)
    ensures Then(a, Then(b, c)) == Then(Then(a, b), c)
  {
    assert a.events + (b.events + c.events) == (a.events + b.events) + c.events;
  }

  lemma ThenIs(before: seq<WalkEvent>, a: Walk, b: Walk)
    ensures Then(a, b) == Walk(b.filter, Then(a, b).events, b.go)
    ensures before + Then(a, b).events == (before + a.events) + b.events
  {
  }

  lemma KeptItself(f: Filter)
    ensures Kept(f, f)
  {
  }

  lemma FieldsStep(fields: seq<Field>, f: Filter, regex: string -> bool)
    requires f.Ready(None) && fields != []
    ensures var next := WalkField(fields[0].name, fields[0].value, f, regex);
            next.filter.Ready(None)
            && WalkFields(fields, f, regex)
               == if next.go then Then(next, WalkFields(fields[1..], next.filter, regex)) else next
  {
    hide WalkField;
  }

  /** One more field: what has been done and what is left still make up the whole walk, or the walk ends. */
  lemma OneMoreField(whole: Walk, done: Walk, fields: seq<Field>, i: nat, regex: string -> bool)
    requires i < |fields| && done.filter.Ready(None)
    requires whole == Then(done, WalkFields(fields[i..], done.filter, regex))
    ensures var next := WalkField(fields[i].name, fields[i].value, done.filter, regex);
            && next.filter.Ready(None)
            && whole == if next.go then Then(Then(done, next), WalkFields(fields[i + 1..], next.filter, regex))
                        else Then(done, next)
  {
    hide WalkFields, WalkField;
    var next := WalkField(fields[i].name, fields[i].value, done.filter, regex);
    assert fields[i..][0] == fields[i] && fields[i..][1..] == fields[i + 1..];
    FieldsStep(fields[i..], done.filter, regex);
    if next.go {
      ThenTwice(done, next, WalkFields(fields[i + 1..], next.filter, regex));
    }
  }

  lemma AllFieldsLeft(fields: seq<Field>, f: Filter, regex: string -> bool)
    requires f.Ready(None)
    ensures WalkFields(fields, f, regex) == Then(Walk(f, [], true), WalkFields(fields[0..], f, regex))
  {
    hide WalkFields;
    assert fields[0..] == fields;
  }

  lemma NothingLeft(done: Walk, fields: seq<Field>, regex: string -> bool)
    requires done.filter.Ready(None) && fields == [] && done.go
    ensures Then(done, WalkFields(fields, done.filter, regex)) == done
  {
  }

  lemma ElementsStep(name: string, elements: seq<Node>, i: nat, f: Filter, regex: string -> bool)
    requires f.Ready(Some(i)) && (f.SubtreeFilter? ==> f.currentPath[|f.currentPath| - 1] == name) && elements != []
    ensures var next := WalkFieldValue(name, Some(i), elements[0], f, regex);
            next.filter.Ready(Some(i + 1))
            && (f.SubtreeFilter? ==> next.filter.currentPath == f.currentPath)
            && WalkElements(name, elements, i, f, regex)
               == if next.go then Then(next, WalkElements(name, elements[1..], i + 1, next.filter, regex)) else next
  {
    hide WalkFieldValue;
  }

  /** A filter before the next element of an array. */
  predicate AtElement(f: Filter, name: string) {
    f.Ready(Some(0)) && (f.SubtreeFilter? ==> f.currentPath[|f.currentPath| - 1] == name)
  }

  /** What has been done, followed by the walk over the elements from `i` on. */
  function FromElement(done: Walk, name: string, elements: seq<Node>, i: nat, regex: string -> bool): Walk
    requires AtElement(done.filter, name) && i <= |elements|
  {
    Then(done, WalkElements(name, elements[i..], i, done.filter, regex))
  }

  /** One more element, in the same way. */
  lemma OneMoreElement(done: Walk, name: string, elements: seq<Node>, i: nat, regex: string -> bool)
    requires AtElement(done.filter, name) && i < |elements|
    ensures var next := WalkFieldValue(name, Some(i), elements[i], done.filter, regex);
            && AtElement(next.filter, name)
            && FromElement(done, name, elements, i, regex)
               == if next.go then FromElement(Then(done, next), name, elements, i + 1, regex) else Then(done, next)
  {
    hide WalkElements, WalkFieldValue;
    var next := WalkFieldValue(name, Some(i), elements[i], done.filter, regex);
    assert elements[i..][0] == elements[i] && elements[i..][1..] == elements[i + 1..];
    ElementsStep(name, elements[i..], i, done.filter, regex);
    if next.go {
      ThenTwice(done, next, WalkElements(name, elements[i + 1..], i + 1, next.filter, regex));
    }
  }

  lemma AllElementsLeft(name: string, elements: seq<Node>, f: Filter, regex: string -> bool)
    requires AtElement(f, name)
    ensures WalkElements(name, elements, 0, f, regex) == FromElement(Walk(f, [], true), name, elements, 0, regex)
  {
    hide WalkElements;
    assert elements[0..] == elements;
  }

  lemma NoElementsLeft(done: Walk, name: string, elements: seq<Node>, regex: string -> bool)
    requires AtElement(done.filter, name) && done.go
    ensures FromElement(done, name, elements, |elements|, regex) == done
  {
    assert done.events + [] == done.events;
  }

  lemma ElementReady(f: Filter, name: string, i: nat)
    requires AtElement(f, name)
    ensures f.Ready(Some(i)) && (f.SubtreeFilter? ==> f.currentPath[|f.currentPath| - 1] == name)
  {
  }

  /** Walks with its filter and records the calls of its observer. */
  class Walker {
    const regex: string -> bool
    var filter: Filter
    var events: seq<WalkEvent>

    constructor (filter: Filter, regex: string -> bool)
      ensures this.filter == filter && this.regex == regex && events == []
    {
      this.filter := filter;
      this.regex := regex;
      events := [];
    }

    /** A step of the walk has done what `w` says. */
    twostate predicate Does(go: bool, w: Walk)
      reads this
    {
      filter == w.filter && events == old(events) + w.events && go == w.go
    }

    /** Walks a root object; false for the exception thrown when it is not a compound. */
    method WalkRoot(root: Node) returns (ok: bool)
      requires filter.Ready(None)
      modifies this
      ensures ok == root.Compound?
      ensures ok ==> var w := WalkCompound(root.choice, root.fields, old(filter), regex);
                     filter == w.filter && events == old(events) + ([RootBegins] + w.events + [RootEnds])
    {
      if !root.Compound? {
        return false;
      }
      events := events + [RootBegins];
      WalkFieldsOf(root.choice, root.fields);
      events := events + [RootEnds];
      ok := true;
    }

    method WalkFieldsOf(choice: Option<string>, fields: seq<Field>)
      requires filter.Ready(None)
      modifies this
      ensures var w := WalkCompound(choice, fields, old(filter), regex); Does(w.go, w)
      decreases fields, 1
    {
      if choice.Some? {
        var found := Chosen(choice.value, fields);
        if found.Some? {
          var go := WalkOneField(fields[found.value].name, fields[found.value].value);
        }
      } else {
        WalkEachField(fields);
      }
    }

    method WalkEachField(fields: seq<Field>)
      requires filter.Ready(None)
      modifies this
      ensures var w := WalkFields(fields, old(filter), regex); Does(w.go, w)
      decreases fields, 0
    {
      hide WalkFields, WalkField, Kept, Filter.Ready;
      ghost var whole := WalkFields(fields, filter, regex);
      AllFieldsLeft(fields, filter, regex);
      ghost var done := Walk(filter, [], true);
      for i := 0 to |fields|
        invariant filter.Ready(None) && done == Walk(filter, done.events, true) && events == old(events) + done.events
        invariant whole == Then(done, WalkFields(fields[i..], filter, regex))
      {
        ghost var next := WalkField(fields[i].name, fields[i].value, filter, regex);
        OneMoreField(whole, done, fields, i, regex);
        var go := WalkOneField(fields[i].name, fields[i].value);
        ThenIs(old(events), done, next);
        done := Then(done, next);
        if !go {
          return;
        }
      }
      NothingLeft(done, fields[|fields|..], regex);
    }

    method WalkOneField(name: string, node: Node) returns (go: bool)
      requires filter.Ready(None)
      modifies this
      ensures Does(go, WalkField(name, node, old(filter), regex))
      decreases node, 2
    {
      hide WalkElements, WalkFieldValue, Kept, BeforeInner, AfterInner;
      if node.Array? {
        ghost var start := filter;
        var before := BeforeInner(filter, regex, name, None, node);
        KeptItself(before.filter);
        BackUp(start, before.filter, before.filter, name, None);
        filter := before.filter;
        if before.go {
          events := events + [ArrayBegins(name)];
          WalkElementsOf(name, node.elements);
          events := events + [ArrayEnds(name)];
        }
        BackUp(start, before.filter, filter, name, None);
        var after := AfterInner(filter, name, None);
        filter := after.filter;
        go := after.go;
      } else {
        go := WalkValue(name, None, node);
      }
    }

    method WalkElementsOf(name: string, elements: seq<Node>)
      requires filter.Ready(Some(0)) && (filter.SubtreeFilter? ==> filter.currentPath[|filter.currentPath| - 1] == name)
      modifies this
      ensures var w := WalkElements(name, elements, 0, old(filter), regex); Does(w.go, w)
      decreases elements, 0
    {
      hide WalkElements, WalkFieldValue, FromElement, Then;
      ghost var whole := WalkElements(name, elements, 0, filter, regex);
      AllElementsLeft(name, elements, filter, regex);
      ghost var done := Walk(filter, [], true);
      for i := 0 to |elements|
        invariant AtElement(filter, name) && done == Walk(filter, done.events, true)
        invariant events == old(events) + done.events
        invariant whole == FromElement(done, name, elements, i, regex)
      {
        ElementReady(filter, name, i);
        ghost var next := WalkFieldValue(name, Some(i), elements[i], filter, regex);
        OneMoreElement(done, name, elements, i, regex);
        var go := WalkValue(name, Some(i), elements[i]);
        ThenIs(old(events), done, next);
        done := Then(done, next);
        if !go {
          return;
        }
      }
      NoElementsLeft(done, name, elements, regex);
    }

    method WalkValue(name: string, index: Option<nat>, node: Node) returns (go: bool)
      requires filter.Ready(index)
      requires filter.SubtreeFilter? && index.Some? ==> filter.currentPath[|filter.currentPath| - 1] == name
      modifies this
      ensures Does(go, WalkFieldValue(name, index, node, old(filter), regex))
      decreases node, 1
    {
      hide WalkCompound, Kept, Entered, BeforeInner, AfterInner, BeforeValue, AfterValue;
      ghost var start := filter;
      if node.Compound? {
        var before := BeforeInner(filter, regex, name, index, node);
        KeptItself(before.filter);
        BackUp(start, before.filter, before.filter, name, index);
        filter := before.filter;
        if before.go {
          events := events + [CompoundBegins(name, index)];
          WalkFieldsOf(node.choice, node.fields);
          events := events + [CompoundEnds(name, index)];
        }
        BackUp(start, before.filter, filter, name, index);
        var after := AfterInner(filter, name, index);
        filter := after.filter;
        go := after.go;
      } else {
        var before := BeforeValue(filter, regex, name, index);
        ValueBackUp(start, before.filter, name, index);
        filter := before.filter;
        if before.go {
          events := events + [Visited(name, index, node)];
        }
        var after := AfterValue(filter, name, index);
        filter := after.filter;
        go := after.go;
      }
    }
  }

  // ----- searching a subtree -----

  /** The paths of a field, an element or an array and of everything below, as texts. */
  function PathsOfFields(fields: seq<Field>, path: Path): seq<string>
    decreases fields, 0
  {
    if fields == [] then [] else PathsOfField(fields[0].name, fields[0].value, path) + PathsOfFields(fields[1..], path)
  }

  function PathsOfCompound(choice: Option<string>, fields: seq<Field>, path: Path): seq<string>
    decreases fields, 1
  {
    if choice.None? then PathsOfFields(fields, path)
    else
      match Chosen(choice.value, fields)
      case None => []
      case Some(i) => PathsOfField(fields[i].name, fields[i].value, path)
  }

  function PathsOfField(name: string, node: Node, path: Path): seq<string>
    decreases node, 2
  {
    if node.Array? then [PathText(path + [name])] + PathsOfElements(name, node.elements, 0, path + [name])
    else PathsOfValue(node, path + [name])
  }

  function PathsOfElements(name: string, elements: seq<Node>, i: nat, path: Path): seq<string>
    requires path != []
    decreases elements, 0
  {
    if elements == [] then []
    else
      PathsOfValue(elements[0], path[..|path| - 1] + [ElementName(name, i)])
      + PathsOfElements(name, elements[1..], i + 1, path)
  }

  function PathsOfValue(node: Node, path: Path): seq<string>
    decreases node, 1
  {
    [PathText(path)] + if node.Compound? then PathsOfCompound(node.choice, node.fields, path) else []
  }

  /** Some path of the list satisfies the regular expression. */
  predicate SomeMatch(regex: string -> bool, paths: seq<string>) {
    exists p :: p in paths && regex(p)
  }

  lemma MatchConcat(regex: string -> bool, a: seq<string>, b: seq<string>)
    ensures SomeMatch(regex, a + b) == (SomeMatch(regex, a) || SomeMatch(regex, b))
  {
    if SomeMatch(regex, a) {
      var p :| p in a && regex(p);
      assert p in a + b;
    }
    if SomeMatch(regex, b) {
      var p :| p in b && regex(p);
      assert p in a + b;
    }
  }

  lemma MatchFirst(regex: string -> bool, p: string, rest: seq<string>)
    ensures SomeMatch(regex, [p] + rest) == (regex(p) || SomeMatch(regex, rest))
  {
    assert SomeMatch(regex, [p]) == regex(p) by {
      assert p in [p];
    }
    MatchConcat(regex, [p], rest);
  }

  /** The outcome of a walk with the subtree filter: it says whether something has matched, and stops when it has. */
  predicate Searched(f: Filter, w: Walk, regex: string -> bool, paths: seq<string>) {
    && f.SubtreeFilter?
    && w.filter == SubtreeFilter(f.currentPath, w.filter.SubtreeFilter? && w.filter.matches)
    && w.go == !SomeMatch(regex, paths)
    && w.filter.matches == if paths == [] then f.matches else SomeMatch(regex, paths)
  }

  lemma {:induction false} SearchFields(fields: seq<Field>, f: Filter, regex: string -> bool)
    requires f.SubtreeFilter? && !f.matches
    ensures Searched(f, WalkFields(fields, f, regex), regex, PathsOfFields(fields, f.currentPath))
    decreases fields, 0
  {
    hide PathText, SomeMatch, WalkField, PathsOfField;
    if fields != [] {
      var here := PathsOfField(fields[0].name, fields[0].value, f.currentPath);
      var rest := PathsOfFields(fields[1..], f.currentPath);
      SearchField(fields[0].name, fields[0].value, f, regex);
      MatchConcat(regex, here, rest);
      var first := WalkField(fields[0].name, fields[0].value, f, regex);
      assert PathsOfFields(fields, f.currentPath) == here + rest && here + rest != [];
      NothingMatches(regex);
      if first.go {
        SearchFields(fields[1..], first.filter, regex);
      }
    } else {
      NothingMatches(regex);
    }
  }

  lemma NothingMatches(regex: string -> bool)
    ensures !SomeMatch(regex, [])
  {
  }

  lemma {:induction false} SearchCompound(choice: Option<string>, fields: seq<Field>, f: Filter, regex: string -> bool)
    requires f.SubtreeFilter? && !f.matches
    ensures Searched(f, WalkCompound(choice, fields, f, regex), regex, PathsOfCompound(choice, fields, f.currentPath))
    decreases fields, 1
  {
    hide PathText, SomeMatch, WalkFields, WalkField, PathsOfFields, PathsOfField;
    NothingMatches(regex);
    if choice.None? {
      SearchFields(fields, f, regex);
    } else if Chosen(choice.value, fields).Some? {
      var i := Chosen(choice.value, fields).value;
      SearchField(fields[i].name, fields[i].value, f, regex);
    }
  }

  lemma {:induction false} SearchField(name: string, node: Node, f: Filter, regex: string -> bool)
    requires f.SubtreeFilter? && !f.matches
    ensures Searched(f, WalkField(name, node, f, regex), regex, PathsOfField(name, node, f.currentPath))
    ensures PathsOfField(name, node, f.currentPath) != []
    decreases node, 2
  {
    hide PathText, SomeMatch, WalkElements, WalkFieldValue, PathsOfElements, PathsOfValue;
    if node.Array? {
      var path := f.currentPath + [name];
      var inner := SubtreeFilter(path, false);
      MatchFirst(regex, PathText(path), PathsOfElements(name, node.elements, 0, path));
      NothingMatches(regex);
      SearchElements(name, node.elements, 0, inner, regex);
      assert path[..|path| - 1] == f.currentPath;
      assert PathsOfField(name, node, f.currentPath)
             == [PathText(path)] + PathsOfElements(name, node.elements, 0, path);
    } else {
      SearchValue(name, None, node, f, regex);
    }
  }

  lemma {:induction false} SearchElements(name: string, elements: seq<Node>, i: nat, f: Filter, regex: string -> bool)
    requires f.SubtreeFilter? && !f.matches && f.currentPath != [] && f.currentPath[|f.currentPath| - 1] == name
    ensures Searched(f, WalkElements(name, elements, i, f, regex), regex,
                     PathsOfElements(name, elements, i, f.currentPath))
    decreases elements, 0
  {
    hide PathText, SomeMatch, WalkFieldValue, PathsOfValue;
    NothingMatches(regex);
    if elements != [] {
      var here := PathsOfValue(elements[0], AppendPath(f.currentPath, name, Some(i)));
      SearchValue(name, Some(i), elements[0], f, regex);
      MatchConcat(regex, here, PathsOfElements(name, elements[1..], i + 1, f.currentPath));
      var first := WalkFieldValue(name, Some(i), elements[0], f, regex);
      if first.go {
        SearchElements(name, elements[1..], i + 1, first.filter, regex);
      }
    }
  }

  lemma {:induction false} SearchValue(name: string, index: Option<nat>, node: Node, f: Filter, regex: string -> bool)
    requires f.SubtreeFilter? && !f.matches && f.Ready(index)
    requires index.Some? ==> f.currentPath[|f.currentPath| - 1] == name
    ensures Searched(f, WalkFieldValue(name, index, node, f, regex), regex,
                     PathsOfValue(node, AppendPath(f.currentPath, name, index)))
    ensures PathsOfValue(node, AppendPath(f.currentPath, name, index)) != []
    decreases node, 1
  {
    hide PathText, SomeMatch, WalkCompound, PathsOfCompound, AppendPath, PopPath, Entered, Kept;
    var path := AppendPath(f.currentPath, name, index);
    NothingMatches(regex);
    MatchFirst(regex, PathText(path), if node.Compound? then PathsOfCompound(node.choice, node.fields, path) else []);
    PathRestored(f.currentPath, name, index);
    if node.Compound? {
      SearchCompound(node.choice, node.fields, SubtreeFilter(path, false), regex);
    }
  }

  lemma PathRestored(path: Path, name: string, index: Option<nat>)
    requires index.Some? ==> path != [] && path[|path| - 1] == name
    ensures AppendPath(path, name, index) != [] && PopPath(AppendPath(path, name, index), name, index) == path
  {
  }

  // ----- showing what matches -----

  /** A call of the unfiltered walk with the paths of its node and of everything below. */
  datatype Traced = Traced(event: WalkEvent, paths: seq<string>)

  function TraceFields(fields: seq<Field>, path: Path): seq<Traced>
    decreases fields, 0
  {
    if fields == [] then [] else TraceField(fields[0].name, fields[0].value, path) + TraceFields(fields[1..], path)
  }

  function TraceCompound(choice: Option<string>, fields: seq<Field>, path: Path): seq<Traced>
    decreases fields, 1
  {
    if choice.None? then TraceFields(fields, path)
    else
      match Chosen(choice.value, fields)
      case None => []
      case Some(i) => TraceField(fields[i].name, fields[i].value, path)
  }

  function TraceField(name: string, node: Node, path: Path): seq<Traced>
    decreases node, 2
  {
    if node.Array? then
      Enclosed(ArrayBegins(name), TraceElements(name, node.elements, 0, path + [name]), ArrayEnds(name),
               PathsOfField(name, node, path))
    else TraceValue(name, None, node, path + [name])
  }

  function TraceElements(name: string, elements: seq<Node>, i: nat, path: Path): seq<Traced>
    requires path != []
    decreases elements, 0
  {
    if elements == [] then []
    else
      TraceValue(name, Some(i), elements[0], path[..|path| - 1] + [ElementName(name, i)])
      + TraceElements(name, elements[1..], i + 1, path)
  }

  function TraceValue(name: string, index: Option<nat>, node: Node, path: Path): seq<Traced>
    decreases node, 1
  {
    if node.Compound? then
      Enclosed(CompoundBegins(name, index), TraceCompound(node.choice, node.fields, path), CompoundEnds(name, index),
               PathsOfValue(node, path))
    else [Traced(Visited(name, index, node), PathsOfValue(node, path))]
  }

  function Enclosed(begin: WalkEvent, inner: seq<Traced>, end: WalkEvent, paths: seq<string>): seq<Traced> {
    [Traced(begin, paths)] + inner + [Traced(end, paths)]
  }

  function Events(trace: seq<Traced>): seq<WalkEvent> {
    seq(|trace|, i requires 0 <= i < |trace| => trace[i].event)
  }

  /** The calls for the nodes whose path or a path below satisfies the regular expression. */
  function Matching(trace: seq<Traced>, regex: string -> bool): (events: seq<WalkEvent>)
    ensures |events| <= |trace|
    decreases |trace|
  {
    if trace == [] then []
    else (if SomeMatch(regex, trace[0].paths) then [trace[0].event] else []) + Matching(trace[1..], regex)
  }

  lemma {:induction false} MatchingConcat(a: seq<Traced>, b: seq<Traced>, regex: string -> bool)
    ensures Matching(a + b, regex) == Matching(a, regex) + Matching(b, regex)
    decreases |a|
  {
    hide SomeMatch, Matching;
    if a == [] {
      assert a + b == b;
      NothingToMatch(regex);
    } else {
      MatchingConcat(a[1..], b, regex);
      MatchingStep(a, regex);
      MatchingStep(a + b, regex);
      assert (a + b)[1..] == a[1..] + b;
      var first := if SomeMatch(regex, a[0].paths) then [a[0].event] else [];
      JoinEvents(first, Matching(a[1..], regex), Matching(b, regex));
    }
  }

  lemma NothingToMatch(regex: string -> bool)
    ensures Matching([], regex) == []
  {
  }

  lemma JoinEvents(a: seq<WalkEvent>, b: seq<WalkEvent>, c: seq<WalkEvent>)
    ensures (a + b) + c == a + (b + c)
  {
  }

  lemma MatchingStep(trace: seq<Traced>, regex: string -> bool)
    requires trace != []
    ensures var first := if SomeMatch(regex, trace[0].paths) then [trace[0].event] else [];
            Matching(trace, regex) == first + Matching(trace[1..], regex)
  {
  }

  lemma MatchingEnclosed(begin: WalkEvent, inner: seq<Traced>, end: WalkEvent, paths: seq<string>,
                         regex: string -> bool)
    ensures Matching(Enclosed(begin, inner, end, paths), regex)
            == if SomeMatch(regex, paths) then [begin] + Matching(inner, regex) + [end] else Matching(inner, regex)
  {
    hide SomeMatch;
    MatchingConcat([Traced(begin, paths)], inner, regex);
    MatchingConcat([Traced(begin, paths)] + inner, [Traced(end, paths)], regex);
    assert [Traced(begin, paths)][1..] == [] && [Traced(end, paths)][1..] == [];
    assert Matching([], regex) == [];
  }

  // ----- where the filter shows what it should -----

  /**
    No array is hidden although something in it matches. The filter searches an array without looking at the paths of
    elements that are compounds, so it hides an array in which nothing but such a path matches.
  */
  predicate RegularFields(fields: seq<Field>, path: Path, regex: string -> bool)
    decreases fields, 0
  {
    fields != [] ==>
      RegularField(fields[0].name, fields[0].value, path, regex) && RegularFields(fields[1..], path, regex)
  }

  predicate RegularCompound(choice: Option<string>, fields: seq<Field>, path: Path, regex: string -> bool)
    decreases fields, 1
  {
    if choice.None? then RegularFields(fields, path, regex)
    else
      match Chosen(choice.value, fields)
      case None => true
      case Some(i) => RegularField(fields[i].name, fields[i].value, path, regex)
  }

  predicate RegularField(name: string, node: Node, path: Path, regex: string -> bool)
    decreases node, 2
  {
    if node.Array? then
      SomeMatch(regex, PathsOfField(name, node, path)) ==>
        && (regex(PathText(path + [name])) || SomeFound(name, node.elements, 0, path + [name], regex))
        && RegularElements(name, node.elements, 0, path + [name], regex)
    else RegularValue(node, path + [name], regex)
  }

  predicate RegularElements(name: string, elements: seq<Node>, i: nat, path: Path, regex: string -> bool)
    requires path != []
    decreases elements, 0
  {
    elements != [] ==>
      && RegularValue(elements[0], path[..|path| - 1] + [ElementName(name, i)], regex)
      && RegularElements(name, elements[1..], i + 1, path, regex)
  }

  predicate RegularValue(node: Node, path: Path, regex: string -> bool)
    decreases node, 1
  {
    node.Compound? && SomeMatch(regex, PathsOfValue(node, path)) ==>
      RegularCompound(node.choice, node.fields, path, regex)
  }

  /** A search finds something in an element. */
  predicate SomeFound(name: string, elements: seq<Node>, i: nat, path: Path, regex: string -> bool)
    requires path != []
    decreases |elements|
  {
    elements != []
    && (SearchFinds(elements[0], path[..|path| - 1] + [ElementName(name, i)], regex)
        || SomeFound(name, elements[1..], i + 1, path, regex))
  }

  lemma {:induction false} FoundBeforeElements(name: string, elements: seq<Node>, i: nat, path: Path,
                                               regex: string -> bool)
    requires path != [] && i <= |elements|
    ensures BeforeElements(name, elements, i, path, regex).go == SomeFound(name, elements[i..], i, path, regex)
    decreases |elements| - i
  {
    hide SearchFinds;
    if i < |elements| {
      assert elements[i..][0] == elements[i] && elements[i..][1..] == elements[i + 1..];
      FoundBeforeElements(name, elements, i + 1, path, regex);
    }
  }

  /** What a search finds matches. */
  lemma {:induction false} FoundMatches(name: string, elements: seq<Node>, i: nat, path: Path, regex: string -> bool)
    requires path != [] && SomeFound(name, elements, i, path, regex)
    ensures SomeMatch(regex, PathsOfElements(name, elements, i, path))
    decreases elements
  {
    hide SomeMatch, PathsOfValue, PathText;
    var path' := path[..|path| - 1] + [ElementName(name, i)];
    MatchConcat(regex, PathsOfValue(elements[0], path'), PathsOfElements(name, elements[1..], i + 1, path));
    ValuePaths(elements[0], path', regex);
    if SomeFound(name, elements[1..], i + 1, path, regex) {
      FoundMatches(name, elements[1..], i + 1, path, regex);
    }
  }

  lemma ValuePaths(node: Node, path: Path, regex: string -> bool)
    ensures SomeMatch(regex, PathsOfValue(node, path))
            == (regex(PathText(path))
                || (node.Compound? && SomeMatch(regex, PathsOfCompound(node.choice, node.fields, path))))
    ensures SearchFinds(node, path, regex) ==> SomeMatch(regex, PathsOfValue(node, path))
  {
    hide SomeMatch, PathsOfCompound, PathText;
    NothingMatches(regex);
    MatchFirst(regex, PathText(path), if node.Compound? then PathsOfCompound(node.choice, node.fields, path) else []);
  }

  /**
    The walk shows what matches, or misses something; and nothing is to be shown where no path matches.
  */
  predicate Shows(w: Walk, trace: seq<Traced>, paths: seq<string>, regular: bool, regex: string -> bool) {
    && w.go
    && (if regular then w.events == Matching(trace, regex) else |w.events| < |Matching(trace, regex)|)
    && (!SomeMatch(regex, paths) ==> Matching(trace, regex) == [])
  }

  lemma ShowsBoth(a: Walk, b: Walk, s: seq<Traced>, t: seq<Traced>, p: seq<string>, q: seq<string>, m: bool, n: bool,
                  regex: string -> bool)
    requires Shows(a, s, p, m, regex) && Shows(b, t, q, n, regex)
    ensures Shows(Then(a, b), s + t, p + q, m && n, regex)
  {
    hide Matching, SomeMatch;
    MatchingConcat(s, t, regex);
    MatchConcat(regex, p, q);
  }

  lemma ShowsNothing(f: Filter, regex: string -> bool)
    ensures Shows(Walk(f, [], true), [], [], true, regex)
  {
  }

  /** Brackets around what is shown inside. */
  lemma ShowsEnclosed(f: Filter, w: Walk, go: bool, begin: WalkEvent, inner: seq<Traced>, end: WalkEvent,
                      paths: seq<string>, below: seq<string>, regular: bool, regex: string -> bool)
    requires Shows(w, inner, below, regular, regex)
    requires (SomeMatch(regex, below) ==> SomeMatch(regex, paths)) && (go ==> SomeMatch(regex, paths))
    ensures Shows(Walk(f, if go then [begin] + w.events + [end] else [], true), Enclosed(begin, inner, end, paths),
                  paths, SomeMatch(regex, paths) ==> go && regular, regex)
  {
    hide Matching, SomeMatch;
    MatchingEnclosed(begin, inner, end, paths, regex);
  }

  lemma {:induction false} RegexFields(fields: seq<Field>, path: Path, regex: string -> bool)
    ensures Shows(WalkFields(fields, RegexFilter(path), regex), TraceFields(fields, path), PathsOfFields(fields, path),
                  RegularFields(fields, path, regex), regex)
    decreases fields, 0
  {
    hide Shows, WalkField, TraceField, PathsOfField, RegularField;
    var f := RegexFilter(path);
    if fields == [] {
      ShowsNothing(f, regex);
    } else {
      var name, node, rest := fields[0].name, fields[0].value, fields[1..];
      var first := WalkField(name, node, f, regex);
      RegexField(name, node, path, regex);
      RegexFields(rest, path, regex);
      ShowsGoesOn(first, TraceField(name, node, path), PathsOfField(name, node, path),
                  RegularField(name, node, path, regex), regex);
      ShowsBoth(first, WalkFields(rest, f, regex), TraceField(name, node, path), TraceFields(rest, path),
                PathsOfField(name, node, path), PathsOfFields(rest, path),
                RegularField(name, node, path, regex), RegularFields(rest, path, regex), regex);
    }
  }

  lemma ShowsGoesOn(w: Walk, trace: seq<Traced>, paths: seq<string>, regular: bool, regex: string -> bool)
    requires Shows(w, trace, paths, regular, regex)
    ensures w.go
  {
  }

  /**
    With the regular-expression filter an observer gets the calls for the nodes whose path or a path below matches,
    and no others, iff no array is hidden by mistake; otherwise some of these calls are missing. The path is restored.
  */
  lemma {:induction false} RegexCompound(choice: Option<string>, fields: seq<Field>, path: Path, regex: string -> bool)
    ensures WalkCompound(choice, fields, RegexFilter(path), regex).filter == RegexFilter(path)
    ensures Shows(WalkCompound(choice, fields, RegexFilter(path), regex), TraceCompound(choice, fields, path),
                  PathsOfCompound(choice, fields, path), RegularCompound(choice, fields, path, regex), regex)
    decreases fields, 1
  {
    hide Shows, WalkField, WalkFields, TraceField, TraceFields, PathsOfField, PathsOfFields;
    hide RegularField, RegularFields;
    if choice.None? {
      RegexFields(fields, path, regex);
    } else if Chosen(choice.value, fields).Some? {
      var i := Chosen(choice.value, fields).value;
      RegexField(fields[i].name, fields[i].value, path, regex);
    } else {
      ShowsNothing(RegexFilter(path), regex);
    }
  }

  lemma {:induction false} RegexField(name: string, node: Node, path: Path, regex: string -> bool)
    ensures Shows(WalkField(name, node, RegexFilter(path), regex), TraceField(name, node, path),
                  PathsOfField(name, node, path), RegularField(name, node, path, regex), regex)
    decreases node, 2
  {
    hide Shows, WalkElements, WalkFieldValue, TraceElements, TraceValue, PathsOfElements, PathsOfValue, RegularElements,
      RegularValue, PathText, SomeMatch, SomeFound, Enclosed, BeforeElements;
    if node.Array? {
      var path' := path + [name];
      var before := BeforeInner(RegexFilter(path), regex, name, None, node);
      var below := PathsOfElements(name, node.elements, 0, path');
      RegexElements(name, node.elements, 0, before.filter, path', regex);
      MatchFirst(regex, PathText(path'), below);
      assert node.elements[0..] == node.elements;
      FoundBeforeElements(name, node.elements, 0, path', regex);
      if SomeFound(name, node.elements, 0, path', regex) {
        FoundMatches(name, node.elements, 0, path', regex);
      }
      ShowsEnclosed(WalkField(name, node, RegexFilter(path), regex).filter,
                    WalkElements(name, node.elements, 0, before.filter, regex), before.go, ArrayBegins(name),
                    TraceElements(name, node.elements, 0, path'), ArrayEnds(name), PathsOfField(name, node, path),
                    below, RegularElements(name, node.elements, 0, path', regex), regex);
    } else {
      RegexValue(name, None, node, RegexFilter(path), path + [name], regex);
    }
  }

  lemma {:induction false} RegexElements(name: string, elements: seq<Node>, i: nat, f: Filter, path: Path,
                                         regex: string -> bool)
    requires f.RegexFilter? && SameFront(path, f.currentPath)
    ensures Shows(WalkElements(name, elements, i, f, regex), TraceElements(name, elements, i, path),
                  PathsOfElements(name, elements, i, path), RegularElements(name, elements, i, path, regex), regex)
    decreases elements, 0
  {
    hide Shows, WalkFieldValue, TraceValue, PathsOfValue, RegularValue;
    if elements == [] {
      ShowsNothing(f, regex);
    } else {
      var path', rest := path[..|path| - 1] + [ElementName(name, i)], elements[1..];
      var first := WalkFieldValue(name, Some(i), elements[0], f, regex);
      RegexValue(name, Some(i), elements[0], f, path', regex);
      RegexElements(name, rest, i + 1, first.filter, path, regex);
      ShowsGoesOn(first, TraceValue(name, Some(i), elements[0], path'), PathsOfValue(elements[0], path'),
                  RegularValue(elements[0], path', regex), regex);
      ShowsBoth(first, WalkElements(name, rest, i + 1, first.filter, regex),
                TraceValue(name, Some(i), elements[0], path'), TraceElements(name, rest, i + 1, path),
                PathsOfValue(elements[0], path'), PathsOfElements(name, rest, i + 1, path),
                RegularValue(elements[0], path', regex), RegularElements(name, rest, i + 1, path, regex), regex);
    }
  }

  lemma {:induction false} RegexValue(name: string, index: Option<nat>, node: Node, f: Filter, path: Path,
                                      regex: string -> bool)
    requires f.RegexFilter? && f.Ready(index) && path == AppendPath(f.currentPath, name, index)
    ensures Shows(WalkFieldValue(name, index, node, f, regex), TraceValue(name, index, node, path),
                  PathsOfValue(node, path), RegularValue(node, path, regex), regex)
    decreases node, 1
  {
    hide WalkCompound, TraceCompound, PathsOfCompound, RegularCompound, PathText, SomeMatch, Enclosed;
    ValuePaths(node, path, regex);
    if node.Compound? {
      hide Shows;
      RegexCompound(node.choice, node.fields, path, regex);
      ShowsEnclosed(WalkFieldValue(name, index, node, f, regex).filter,
                    WalkCompound(node.choice, node.fields, RegexFilter(path), regex),
                    SomeMatch(regex, PathsOfValue(node, path)), CompoundBegins(name, index),
                    TraceCompound(node.choice, node.fields, path), CompoundEnds(name, index),
                    PathsOfValue(node, path), PathsOfCompound(node.choice, node.fields, path),
                    RegularCompound(node.choice, node.fields, path, regex), regex);
    } else {
      assert TraceValue(name, index, node, path)[1..] == [];
      assert Matching([], regex) == [];
    }
  }

  lemma NoEvents()
    ensures Events([]) == []
  {
  }

  lemma EventsConcat(a: seq<Traced>, b: seq<Traced>)
    ensures Events(a + b) == Events(a) + Events(b)
  {
  }

  lemma EventsEnclosed(begin: WalkEvent, inner: seq<Traced>, end: WalkEvent, paths: seq<string>)
    ensures Events(Enclosed(begin, inner, end, paths)) == [begin] + Events(inner) + [end]
  {
  }

  lemma {:induction false} FieldsTraced(fields: seq<Field>, path: Path, regex: string -> bool)
    ensures WalkFields(fields, DefaultFilter, regex) == Walk(DefaultFilter, Events(TraceFields(fields, path)), true)
    decreases fields, 0
  {
    hide WalkField, TraceField, Events;
    if fields == [] {
      NoEvents();
    } else {
      FieldTraced(fields[0].name, fields[0].value, path, regex);
      FieldsTraced(fields[1..], path, regex);
      EventsConcat(TraceField(fields[0].name, fields[0].value, path), TraceFields(fields[1..], path));
    }
  }

  /** The traced calls are those of the walk without a filter. */
  lemma {:induction false} CompoundTraced(choice: Option<string>, fields: seq<Field>, path: Path,
                                          regex: string -> bool)
    ensures WalkCompound(choice, fields, DefaultFilter, regex)
            == Walk(DefaultFilter, Events(TraceCompound(choice, fields, path)), true)
    decreases fields, 1
  {
    hide WalkField, WalkFields, TraceField, TraceFields, Events;
    if choice.None? {
      FieldsTraced(fields, path, regex);
    } else if Chosen(choice.value, fields).Some? {
      var i := Chosen(choice.value, fields).value;
      FieldTraced(fields[i].name, fields[i].value, path, regex);
    } else {
      NoEvents();
    }
  }

  lemma {:induction false} FieldTraced(name: string, node: Node, path: Path, regex: string -> bool)
    ensures WalkField(name, node, DefaultFilter, regex)
            == Walk(DefaultFilter, Events(TraceField(name, node, path)), true)
    decreases node, 2
  {
    hide WalkElements, WalkFieldValue, TraceElements, TraceValue, Events, Enclosed, PathsOfField;
    if node.Array? {
      ElementsTraced(name, node.elements, 0, path + [name], regex);
      EventsEnclosed(ArrayBegins(name), TraceElements(name, node.elements, 0, path + [name]), ArrayEnds(name),
                     PathsOfField(name, node, path));
    } else {
      ValueTraced(name, None, node, path + [name], regex);
    }
  }

  lemma {:induction false} ElementsTraced(name: string, elements: seq<Node>, i: nat, path: Path, regex: string -> bool)
    requires path != []
    ensures WalkElements(name, elements, i, DefaultFilter, regex)
            == Walk(DefaultFilter, Events(TraceElements(name, elements, i, path)), true)
    decreases elements, 0
  {
    hide WalkFieldValue, TraceValue, Events;
    if elements == [] {
      NoEvents();
    } else {
      var path' := path[..|path| - 1] + [ElementName(name, i)];
      ValueTraced(name, Some(i), elements[0], path', regex);
      ElementsTraced(name, elements[1..], i + 1, path, regex);
      EventsConcat(TraceValue(name, Some(i), elements[0], path'), TraceElements(name, elements[1..], i + 1, path));
    }
  }

  lemma {:induction false} ValueTraced(name: string, index: Option<nat>, node: Node, path: Path,
                                       regex: string -> bool)
    ensures WalkFieldValue(name, index, node, DefaultFilter, regex)
            == Walk(DefaultFilter, Events(TraceValue(name, index, node, path)), true)
    decreases node, 1
  {
    hide WalkCompound, TraceCompound, PathsOfValue, Enclosed;
    if node.Compound? {
      hide Events;
      CompoundTraced(node.choice, node.fields, path, regex);
      EventsEnclosed(CompoundBegins(name, index), TraceCompound(node.choice, node.fields, path),
                     CompoundEnds(name, index), PathsOfValue(node, path));
    }
  }

  /** An array `a` with one empty compound. */
  const HIDDEN_FIELDS: seq<Field> := [Field("a", Array([Compound(None, [])]))]

  /** When the path of the compound matches and the path of the array does not, nothing is shown. */
  lemma ElementHidden(regex: string -> bool)
    requires regex("a[0]") && !regex("a")
    ensures SomeMatch(regex, PathsOfCompound(None, HIDDEN_FIELDS, []))
    ensures !RegularCompound(None, HIDDEN_FIELDS, [], regex)
    ensures WalkCompound(None, HIDDEN_FIELDS, RegexFilter([]), regex).events == []
  {
    var element, path := Compound(None, []), ["a[0]"];
    HiddenPaths();
    assert PathsOfCompound(None, HIDDEN_FIELDS, []) == ["a", "a[0]"];
    assert "a[0]" in ["a", "a[0]"];
    assert HIDDEN_FIELDS[0].value.elements == [element];
    assert ["a"][..0] + ["a[0]"] == path && [] + ["a"] == ["a"];
    NothingMatches(regex);
    assert !SearchFinds(element, path, regex);
    assert !SomeFound("a", [element], 0, ["a"], regex);
    assert [element][0..] == [element];
    FoundBeforeElements("a", [element], 0, ["a"], regex);
    HiddenWalk(regex);
  }

  lemma HiddenPaths()
    ensures ElementName("a", 0) == "a[0]" && PathText(["a"]) == "a" && PathText(["a[0]"]) == "a[0]"
    ensures PathsOfCompound(None, HIDDEN_FIELDS, []) == ["a", "a[0]"]
  {
  }

  lemma HiddenWalk(regex: string -> bool)
    requires !BeforeInner(RegexFilter([]), regex, "a", None, HIDDEN_FIELDS[0].value).go
    ensures WalkCompound(None, HIDDEN_FIELDS, RegexFilter([]), regex).events == []
  {
    hide BeforeInner;
    assert HIDDEN_FIELDS[1..] == [];
  }

  // ----- walking to a depth -----

  /** A list of fields without what is deeper than `maxDepth`; the fields themselves are at `depth`. */
  function PruneFields(fields: seq<Field>, depth: nat, maxDepth: nat): (pruned: seq<Field>)
    decreases fields, 0
  {
    if fields == [] || depth > maxDepth then []
    else
      [Field(fields[0].name, PruneField(fields[0].value, depth, maxDepth))] + PruneFields(fields[1..], depth, maxDepth)
  }

  function PruneField(node: Node, depth: nat, maxDepth: nat): Node
    decreases node, 2
  {
    if node.Array? then Array(PruneElements(node.elements, depth + 1, maxDepth)) else PruneValue(node, depth, maxDepth)
  }

  function PruneElements(elements: seq<Node>, depth: nat, maxDepth: nat): seq<Node>
    decreases elements, 0
  {
    if elements == [] || depth > maxDepth then []
    else [PruneValue(elements[0], depth, maxDepth)] + PruneElements(elements[1..], depth, maxDepth)
  }

  function PruneValue(node: Node, depth: nat, maxDepth: nat): Node
    decreases node, 1
  {
    if node.Compound? then Compound(node.choice, PruneFields(node.fields, depth + 1, maxDepth)) else node
  }

  lemma {:induction false} FindPruned(fields: seq<Field>, name: string, depth: nat, maxDepth: nat)
    requires depth <= maxDepth
    ensures Find(PruneFields(fields, depth, maxDepth), name) == Find(fields, name)
    decreases fields
  {
    hide PruneField;
    if fields != [] {
      FindPruned(fields[1..], name, depth, maxDepth);
      assert PruneFields(fields, depth, maxDepth)[1..] == PruneFields(fields[1..], depth, maxDepth);
    }
  }

  lemma {:induction false} PrunedAt(fields: seq<Field>, i: nat, depth: nat, maxDepth: nat)
    requires depth <= maxDepth && i < |fields|
    ensures |PruneFields(fields, depth, maxDepth)| == |fields|
    ensures PruneFields(fields, depth, maxDepth)[i]
            == Field(fields[i].name, PruneField(fields[i].value, depth, maxDepth))
    decreases i
  {
    hide PruneField;
    var pruned := PruneFields(fields, depth, maxDepth);
    assert pruned[1..] == PruneFields(fields[1..], depth, maxDepth);
    if i > 0 {
      PrunedAt(fields[1..], i - 1, depth, maxDepth);
    } else {
      PrunedLength(fields[1..], depth, maxDepth);
    }
  }

  lemma {:induction false} PrunedLength(fields: seq<Field>, depth: nat, maxDepth: nat)
    requires depth <= maxDepth
    ensures |PruneFields(fields, depth, maxDepth)| == |fields|
    decreases fields
  {
    hide PruneField;
    if fields != [] {
      PrunedLength(fields[1..], depth, maxDepth);
    }
  }

  lemma {:induction false} TooDeepFields(fields: seq<Field>, depth: nat, maxDepth: nat, regex: string -> bool)
    requires depth > maxDepth
    ensures WalkFields(fields, DepthFilter(maxDepth, depth), regex) == Walk(DepthFilter(maxDepth, depth), [], true)
    decreases fields
  {
    hide WalkField;
    if fields != [] {
      TooDeepField(fields[0].name, fields[0].value, depth, maxDepth, regex);
      TooDeepFields(fields[1..], depth, maxDepth, regex);
    }
  }

  lemma {:induction false} TooDeepElements(name: string, elements: seq<Node>, i: nat, depth: nat, maxDepth: nat,
                                           regex: string -> bool)
    requires depth > maxDepth
    ensures WalkElements(name, elements, i, DepthFilter(maxDepth, depth), regex)
            == Walk(DepthFilter(maxDepth, depth), [], true)
    decreases elements
  {
    if elements != [] {
      TooDeepElements(name, elements[1..], i + 1, depth, maxDepth, regex);
    }
  }

  /** The observer sees the same, and the walk goes on; the depth filter is back in the state it was in. */
  predicate SeesTheSame(deep: Walk, all: Walk, depth: nat, maxDepth: nat) {
    deep == Walk(DepthFilter(maxDepth, depth), all.events, true) && all.go && all.filter == DefaultFilter
  }

  /** With the depth filter the observer sees exactly what it sees of the pruned object without a filter. */
  lemma {:induction false} DepthFields(fields: seq<Field>, depth: nat, maxDepth: nat, regex: string -> bool)
    requires depth > 0
    ensures SeesTheSame(WalkFields(fields, DepthFilter(maxDepth, depth), regex),
                        WalkFields(PruneFields(fields, depth, maxDepth), DefaultFilter, regex), depth, maxDepth)
    decreases fields, 0
  {
    hide WalkField, PruneField;
    if depth > maxDepth {
      TooDeepFields(fields, depth, maxDepth, regex);
    } else if fields != [] {
      DepthField(fields[0].name, fields[0].value, depth, maxDepth, regex);
      DepthFields(fields[1..], depth, maxDepth, regex);
      assert PruneFields(fields, depth, maxDepth)[1..] == PruneFields(fields[1..], depth, maxDepth);
    }
  }

  lemma {:induction false} DepthCompound(choice: Option<string>, fields: seq<Field>, depth: nat, maxDepth: nat,
                                         regex: string -> bool)
    requires depth > 0
    ensures SeesTheSame(WalkCompound(choice, fields, DepthFilter(maxDepth, depth), regex),
                        WalkCompound(choice, PruneFields(fields, depth, maxDepth), DefaultFilter, regex),
                        depth, maxDepth)
    decreases fields, 1
  {
    hide WalkField, WalkFields, PruneField;
    if choice.None? {
      DepthFields(fields, depth, maxDepth, regex);
    } else if Chosen(choice.value, fields).Some? {
      var i := Chosen(choice.value, fields).value;
      if depth <= maxDepth {
        FindPruned(fields, choice.value, depth, maxDepth);
        PrunedAt(fields, i, depth, maxDepth);
        DepthField(fields[i].name, fields[i].value, depth, maxDepth, regex);
      } else {
        TooDeepField(fields[i].name, fields[i].value, depth, maxDepth, regex);
      }
    } else if depth <= maxDepth {
      FindPruned(fields, choice.value, depth, maxDepth);
    }
  }

  lemma TooDeepField(name: string, node: Node, depth: nat, maxDepth: nat, regex: string -> bool)
    requires depth > maxDepth
    ensures WalkField(name, node, DepthFilter(maxDepth, depth), regex) == Walk(DepthFilter(maxDepth, depth), [], true)
  {
  }

  lemma {:induction false} DepthField(name: string, node: Node, depth: nat, maxDepth: nat, regex: string -> bool)
    requires 0 < depth <= maxDepth
    ensures SeesTheSame(WalkField(name, node, DepthFilter(maxDepth, depth), regex),
                        WalkField(name, PruneField(node, depth, maxDepth), DefaultFilter, regex), depth, maxDepth)
    decreases node, 2
  {
    hide WalkElements, WalkFieldValue, PruneElements, PruneValue;
    if node.Array? {
      DepthElements(name, node.elements, 0, depth + 1, maxDepth, regex);
    } else {
      PrunedKind(node, depth, maxDepth);
      DepthValue(name, None, node, depth, maxDepth, regex);
    }
  }

  lemma PrunedKind(node: Node, depth: nat, maxDepth: nat)
    ensures PruneValue(node, depth, maxDepth).Array? == node.Array?
  {
  }

  lemma {:induction false} DepthElements(name: string, elements: seq<Node>, i: nat, depth: nat, maxDepth: nat,
                                         regex: string -> bool)
    requires depth > 0
    ensures SeesTheSame(WalkElements(name, elements, i, DepthFilter(maxDepth, depth), regex),
                        WalkElements(name, PruneElements(elements, depth, maxDepth), i, DefaultFilter, regex),
                        depth, maxDepth)
    decreases elements, 0
  {
    hide WalkFieldValue, PruneValue;
    if depth > maxDepth {
      TooDeepElements(name, elements, i, depth, maxDepth, regex);
    } else if elements != [] {
      DepthValue(name, Some(i), elements[0], depth, maxDepth, regex);
      DepthElements(name, elements[1..], i + 1, depth, maxDepth, regex);
      assert PruneElements(elements, depth, maxDepth)[1..] == PruneElements(elements[1..], depth, maxDepth);
    }
  }

  lemma {:induction false} DepthValue(name: string, index: Option<nat>, node: Node, depth: nat, maxDepth: nat,
                                      regex: string -> bool)
    requires 0 < depth <= maxDepth
    ensures SeesTheSame(WalkFieldValue(name, index, node, DepthFilter(maxDepth, depth), regex),
                        WalkFieldValue(name, index, PruneValue(node, depth, maxDepth), DefaultFilter, regex),
                        depth, maxDepth)
    decreases node, 1
  {
    hide WalkCompound, PruneFields;
    if node.Compound? {
      DepthCompound(node.choice, node.fields, depth + 1, maxDepth, regex);
    }
  }

  /**
    Whether something in the subtree of a value has a path that satisfies the regular expression; of anything but a
    compound only the path itself counts.
  */
  method MatchSubtree(value: Node, path: Path, regex: string -> bool) returns (matches: bool)
    ensures matches == if value.Compound? then SomeMatch(regex, PathsOfCompound(value.choice, value.fields, path))
                       else regex(PathText(path))
  {
    if !value.Compound? {
      return regex(PathText(path));
    }
    var walker := new Walker(SubtreeFilter(path, false), regex);
    var ok := walker.WalkRoot(value);
    SearchCompound(value.choice, value.fields, SubtreeFilter(path, false), regex);
    NothingMatches(regex);
    return walker.filter.matches;
  }

  /** Whether the regular-expression filter shows an array, and the path it goes on with. */
  method BeforeArray(path: Path, name: string, elements: seq<Node>, regex: string -> bool)
    returns (currentPath: Path, go: bool)
    ensures Decision(RegexFilter(currentPath), go)
            == BeforeInner(RegexFilter(path), regex, name, None, Array(elements))
  {
    hide PathText, SearchFinds, SomeMatch, PathsOfCompound;
    currentPath := path + [name];
    if regex(PathText(currentPath)) {
      return currentPath, true;
    }
    ghost var start := currentPath;
    assert start[..|start| - 1] == path;
    for i := 0 to |elements|
      invariant |currentPath| == |path| + 1 && currentPath[..|path|] == path
      invariant BeforeElements(name, elements, 0, start, regex) == BeforeElements(name, elements, i, start, regex)
    {
      currentPath := currentPath[..|currentPath| - 1] + [ElementName(name, i)];
      var found := MatchSubtree(elements[i], currentPath, regex);
      SearchIs(elements[i], currentPath, regex);
      if found {
        return currentPath, true;
      }
    }
    currentPath := currentPath[..|currentPath| - 1] + [name];
    go := false;
  }

  lemma SearchIs(node: Node, path: Path, regex: string -> bool)
    ensures SearchFinds(node, path, regex)
            == if node.Compound? then SomeMatch(regex, PathsOfCompound(node.choice, node.fields, path))
               else regex(PathText(path))
  {
  }

  /** What an observer sees of a root object through the regular-expression filter. */
  method WalkMatching(root: Node, regex: string -> bool) returns (shown: seq<WalkEvent>)
    requires root.Compound?
    ensures var matching := Matching(TraceCompound(root.choice, root.fields, []), regex);
            shown == [RootBegins] + matching + [RootEnds] <==> RegularCompound(root.choice, root.fields, [], regex)
  {
    hide WalkCompound, Matching, TraceCompound, RegularCompound;
    var walker := new Walker(RegexFilter([]), regex);
    var ok := walker.WalkRoot(root);
    shown := walker.events;
    RegexCompound(root.choice, root.fields, [], regex);
    ghost var w := WalkCompound(root.choice, root.fields, RegexFilter([]), regex);
    SameInside(RootBegins, w.events, Matching(TraceCompound(root.choice, root.fields, []), regex), RootEnds);
  }

  lemma SameInside(begin: WalkEvent, a: seq<WalkEvent>, b: seq<WalkEvent>, end: WalkEvent)
    ensures [begin] + a + [end] == [begin] + b + [end] <==> a == b
  {
    assert ([begin] + a + [end])[1..|a| + 1] == a;
    assert ([begin] + b + [end])[1..|b| + 1] == b;
  }

  /** Walking with the depth filter shows an observer the pruned object. */
  method WalkToDepth(root: Node, maxDepth: nat, regex: string -> bool)
    returns (deep: seq<WalkEvent>, pruned: seq<WalkEvent>)
    requires root.Compound?
    ensures deep == pruned
  {
    hide WalkCompound, PruneFields;
    var walker := new Walker(DepthFilter(maxDepth, 1), regex);
    var ok := walker.WalkRoot(root);
    deep := walker.events;
    var other := new Walker(DefaultFilter, regex);
    ok := other.WalkRoot(Compound(root.choice, PruneFields(root.fields, 1, maxDepth)));
    pruned := other.events;
    DepthCompound(root.choice, root.fields, 1, maxDepth, regex);
  }
}
