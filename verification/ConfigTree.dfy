/** Configuration trees that account for what is read from them. */
module ConfigTree {

  datatype Option<T> = None | Some(value: T)

  /** An access either gives a value or ends in an error, which the error handler does not return from. */
  datatype Result<T> = Ok(value: T) | Error

  /** A property tree: its immediate data and its named children.  Attributes are the children of the
      child with the name <xmlattr>. */
  datatype PTree = PTree(data: string, children: seq<Child>)
  datatype Child = Child(name: string, tree: PTree)

  const XML_ATTR: string := "<xmlattr>"

  datatype Attr = TAG | ATTR
  datatype Key = Key(attr: Attr, name: string)

  // ---- what is in the tree ----

  /** The first child with a name. */
  function Find(children: seq<Child>, name: string): Option<PTree> {
    if children == [] then None
    else if children[0].name == name then Some(children[0].tree)
    else Find(children[1..], name)
  }

  function Attributes(tree: PTree): seq<Child> {
    match Find(tree.children, XML_ATTR)
    case None => []
    case Some(t) => t.children
  }

  /** The subtrees with a name, in order. */
  function Named(children: seq<Child>, name: string): seq<PTree> {
    if children == [] then [] else
      Named(children[..|children| - 1], name) +
        if children[|children| - 1].name == name then [children[|children| - 1].tree] else []
  }

  /** How often a key is present in the tree. */
  ghost function Occurrences(tree: PTree, key: Key): nat {
    match key.attr
    case TAG => if key.name == XML_ATTR then 0 else |Named(tree.children, key.name)|
    case ATTR => |Named(Attributes(tree), key.name)|
  }

  lemma {:induction false} FindIffNamed(children: seq<Child>, name: string)
    ensures Find(children, name).None? <==> Named(children, name) == []
  {
    if children != [] {
      FindIffNamed(children[1..], name);
      NamedFirst(children, name);
    }
  }

  lemma {:induction false} NamedFirst(children: seq<Child>, name: string)
    requires children != []
    ensures Named(children, name) == (if children[0].name == name then [children[0].tree] else []) +
      Named(children[1..], name)
  {
    if |children| > 1 {
      var front := children[..|children| - 1];
      NamedFirst(front, name);
      assert front[1..] == children[1..][..|children| - 2];
    }
  }

  /** The first child with a name has this tree. */
  ghost predicate IsFirst(children: seq<Child>, name: string, tree: PTree) {
    exists k :: 0 <= k < |children| && children[k] == Child(name, tree) &&
      forall i :: 0 <= i < k ==> children[i].name != name
  }

  lemma {:induction false} FindIsFirst(children: seq<Child>, name: string)
    ensures match Find(children, name)
      case Some(t) => IsFirst(children, name, t)
      case None => forall i :: 0 <= i < |children| ==> children[i].name != name
  {
    if children != [] && children[0].name != name {
      FindIsFirst(children[1..], name);
      if t :| IsFirst(children[1..], name, t) {
        var k :| 0 <= k < |children| - 1 && children[1..][k] == Child(name, t) &&
          forall i :: 0 <= i < k ==> children[1..][i].name != name;
        assert children[k + 1] == Child(name, t);
        forall i | 0 <= i < k + 1
          ensures children[i].name != name
        {
          assert i > 0 ==> children[i] == children[1..][i - 1];
        }
      }
      forall i | Find(children, name).None? && 0 <= i < |children|
        ensures children[i].name != name
      {
        assert i > 0 ==> children[i] == children[1..][i - 1];
      }
    }
  }

  /** Whichever child is the first with a name, it is the one that is found. */
  lemma FirstIsFound(children: seq<Child>, name: string, tree: PTree)
    requires IsFirst(children, name, tree)
    ensures Find(children, name) == Some(tree)
  {
    FindIsFirst(children, name);
    var k :| 0 <= k < |children| && children[k] == Child(name, tree) &&
      forall i :: 0 <= i < k ==> children[i].name != name;
    if t :| IsFirst(children, name, t) && Find(children, name) == Some(t) {
      var l :| 0 <= l < |children| && children[l] == Child(name, t) &&
        forall i :: 0 <= i < l ==> children[i].name != name;
      assert k == l;
    }
  }

  /** The attributes are the children of the first child named <xmlattr>. */
  lemma AttributesMean(tree: PTree, t: PTree)
    ensures IsFirst(tree.children, "<xmlattr>", t) ==> Attributes(tree) == t.children
    ensures (forall i :: 0 <= i < |tree.children| ==> tree.children[i].name != "<xmlattr>") ==> Attributes(tree) == []
  {
    if IsFirst(tree.children, "<xmlattr>", t) {
      FirstIsFound(tree.children, "<xmlattr>", t);
    }
    FindIsFirst(tree.children, "<xmlattr>");
  }

  /** The items are the subtrees at these positions, which are all the positions of a name, in order. */
  ghost predicate Listing(children: seq<Child>, name: string, items: seq<PTree>, pos: seq<nat>) {
    |pos| == |items| && (forall i, j :: 0 <= i < j < |pos| ==> pos[i] < pos[j]) &&
    (forall i :: 0 <= i < |pos| ==> pos[i] < |children| && children[pos[i]] == Child(name, items[i])) &&
    forall k :: 0 <= k < |children| && children[k].name == name ==> k in pos
  }

  lemma {:induction false} NamedListing(children: seq<Child>, name: string) returns (pos: seq<nat>)
    ensures Listing(children, name, Named(children, name), pos)
  {
    pos := [];
    if children != [] {
      var n := |children| - 1;
      var front := NamedListing(children[..n], name);
      pos := front + if children[n].name == name then [n] else [];
      forall k | 0 <= k < |children| && children[k].name == name
        ensures k in pos
      {
        assert k < n ==> children[..n][k] == children[k] && k in front;
      }
    }
  }

  // ---- names ----

  predicate IsKeyStart(c: char) {
    'a' <= c <= 'z'
  }

  predicate IsKeyChar(c: char) {
    IsKeyStart(c) || c == '_' || '0' <= c <= '9'
  }

  /** The names that are accepted: no double underscore, a letter first. */
  predicate ValidKeyname(key: string) {
    key != "" && IsKeyStart(key[0]) && (forall i :: 1 <= i < |key| ==> IsKeyChar(key[i])) &&
    forall i :: 0 < i < |key| ==> !(key[i - 1] == '_' && key[i] == '_')
  }

  /** The name of an attribute that is checked: with a colon, colons and upper-case letters count as letters. */
  function CheckedAttribute(attr: string): string {
    if ':' in attr
    then seq(|attr|, i requires 0 <= i < |attr| => if attr[i] == ':' || 'A' <= attr[i] <= 'Z' then 'a' else attr[i])
    else attr
  }

  predicate ValidKey(key: Key) {
    ValidKeyname(if key.attr == ATTR then CheckedAttribute(key.name) else key.name)
  }

  /** Which names are valid, character by character. */
  lemma KeynameGrows(key: string, c: char)
    ensures !ValidKeyname("")
    ensures ValidKeyname(key + [c]) <==>
      if key == "" then c in "abcdefghijklmnopqrstuvwxyz"
      else ValidKeyname(key) && c in "abcdefghijklmnopqrstuvwxyz_0123456789" && !(c == '_' && key[|key| - 1] == '_')
  {
    KeyChars(c);
    hide IsKeyStart, IsKeyChar;
    var s := key + [c];
    assert forall i :: 0 <= i < |key| ==> s[i] == key[i];
    assert s[|key|] == c;
  }

  lemma KeyChars(c: char)
    ensures IsKeyStart(c) <==> c in "abcdefghijklmnopqrstuvwxyz"
    ensures IsKeyChar(c) <==> c in "abcdefghijklmnopqrstuvwxyz_0123456789"
  {
  }

  /** Attributes with a colon may have colons and upper-case letters everywhere. */
  lemma ValidAttributeIff(attr: string)
    ensures ':' !in attr ==> (ValidKey(Key(ATTR, attr)) <==> ValidKeyname(attr))
    ensures ':' in attr ==>
      (ValidKey(Key(ATTR, attr)) <==>
         (IsKeyStart(attr[0]) || 'A' <= attr[0] <= 'Z' || attr[0] == ':') &&
         (forall i :: 1 <= i < |attr| ==> IsKeyChar(attr[i]) || 'A' <= attr[i] <= 'Z' || attr[i] == ':') &&
         forall i :: 0 < i < |attr| ==> !(attr[i - 1] == '_' && attr[i] == '_'))
  {
    var s := CheckedAttribute(attr);
    if ':' in attr {
      assert |s| == |attr|;
      assert forall i :: 0 <= i < |s| ==>
        s[i] == if attr[i] == ':' || 'A' <= attr[i] <= 'Z' then 'a' else attr[i];
    }
  }

  lemma TagIsNotXmlAttr(key: string)
    requires ValidKeyname(key)
    ensures key != XML_ATTR
  {
  }

  // ---- accounting ----

  /** The type a key was read with; 0 is the configuration tree itself. */
  type Type = nat
  const SUBTREE: Type := 0

  datatype Count = Count(count: int, kind: Type)

  /** What happened to a tree: an accessor claimed a key, a setting was counted as read. */
  datatype Event = Claim(key: Key) | Read(key: Key)

  ghost function Claims(history: seq<Event>, key: Key): nat {
    multiset(history)[Claim(key)]
  }

  ghost function Reads(history: seq<Event>, key: Key): nat {
    multiset(history)[Read(key)]
  }

  /** The history after a key was marked as visited. */
  ghost function Marked(history: seq<Event>, key: Key, first: bool, peekOnly: bool): seq<Event> {
    if first then (if peekOnly then history + [Claim(key)] else history + [Claim(key), Read(key)])
    else if peekOnly then history else history + [Read(key)]
  }

  ghost function Repeated(e: Event, n: nat): seq<Event> {
    seq(n, _ => e)
  }

  lemma RepeatedStep(before: seq<Event>, e: Event, n: nat)
    ensures before + Repeated(e, 0) == before && before + Repeated(e, n + 1) == before + Repeated(e, n) + [e]
  {
    assert Repeated(e, n + 1) == Repeated(e, n) + [e];
  }

  /** The counters agree with the history, in which no key is claimed twice. */
  ghost predicate Accounts(visited: map<Key, Count>, history: seq<Event>) {
    forall key: Key ::
      if key in visited then Claims(history, key) == 1 && visited[key].count == Reads(history, key)
      else Claims(history, key) == 0 && Reads(history, key) == 0
  }

  datatype Warning = DataNotRead | ReadMore(key: Key, times: nat) | ReadLess(key: Key, times: nat)

  /** The warning about a key that was read so many times more (or less) than it is present. */
  ghost predicate Warned(warnings: set<Warning>, key: Key, surplus: int) {
    (forall n :: ReadMore(key, n) in warnings <==> n == surplus > 0) &&
    forall n :: ReadLess(key, n) in warnings <==> n == -surplus > 0
  }

  /** The visited keys are the claimed ones. */
  lemma ClaimedOnce(visited: map<Key, Count>, history: seq<Event>, key: Key)
    requires Accounts(visited, history)
    ensures Claims(history, key) <= 1 && (key in visited <==> Claims(history, key) == 1)
  {
  }

  /** There is a warning about a key iff the number of reads and of occurrences differ. */
  lemma WarnedIffDifferent(warnings: set<Warning>, key: Key, surplus: int)
    requires Warned(warnings, key, surplus)
    ensures (exists n :: ReadMore(key, n) in warnings || ReadLess(key, n) in warnings) <==> surplus != 0
  {
    if surplus > 0 {
      assert ReadMore(key, surplus) in warnings;
    } else if surplus < 0 {
      assert ReadLess(key, -surplus) in warnings;
    }
  }

  lemma NotWarned(warnings: set<Warning>, key: Key)
    requires Warned(warnings, key, 0)
    ensures forall n :: ReadMore(key, n) !in warnings && ReadLess(key, n) !in warnings
  {
  }

  class ConfigTree {
    const tree: PTree
    const path: string
    /** Whether the tree has not been invalidated. */
    var alive: bool
    var visited: map<Key, Count>
    var haveReadData: bool
    ghost var history: seq<Event>

    ghost predicate Valid()
      reads this
    {
      alive ==> Accounts(visited, history)
    }

    constructor (tree: PTree, path: string)
      ensures Valid() && alive && history == [] && visited == map[] && !haveReadData && this.tree == tree &&
        this.path == path
    {
      this.tree := tree;
      this.path := path;
      alive := true;
      visited := map[];
      haveReadData := false;
      history := [];
    }

    /** A tree as it is made: nothing was read from it. */
    ghost predicate NotRead(path: string)
      reads this
    {
      alive && visited == map[] && history == [] && !haveReadData && this.path == path
    }

    predicate CheckUnique(key: Key)
      reads this
    {
      ValidKey(key) && key !in visited
    }

    /** Counts a read of a key, unless it is a peek; false if the key was read with another type. */
    method MarkVisited(key: Key, kind: Type, peekOnly: bool) returns (ok: bool)
      requires Valid() && alive
      modifies this`visited, this`history
      ensures Valid()
      ensures key !in old(visited) ==> ok && visited == old(visited)[key := Count(if peekOnly then 0 else 1, kind)]
      ensures key in old(visited) ==> ok == (old(visited)[key].kind == kind)
      ensures !ok ==> visited == old(visited) && history == old(history)
      ensures ok ==> visited.Keys == old(visited).Keys + {key} && visited[key].kind == kind
      ensures ok ==> history == Marked(old(history), key, key !in old(visited), peekOnly)
    {
      if key !in visited {
        visited := visited[key := Count(if peekOnly then 0 else 1, kind)];
        history := if peekOnly then history + [Claim(key)] else history + [Claim(key), Read(key)];
        ok := true;
      } else if visited[key].kind == kind {
        if !peekOnly {
          visited := visited[key := visited[key].(count := visited[key].count + 1)];
          history := history + [Read(key)];
        }
        ok := true;
      } else {
        ok := false;
      }
    }

    /** Counts one more read of a key. */
    method CountRead(key: Key)
      requires Valid() && alive && key in visited
      modifies this`visited, this`history
      ensures Valid() && key in visited && history == old(history) + [Read(key)]
    {
      visited := visited[key := visited[key].(count := visited[key].count + 1)];
      history := history + [Read(key)];
    }

    /** A subtree, if there is one; the key must not have been claimed before. */
    method GetConfigSubtreeOptional(root: string) returns (r: Result<Option<ConfigTree>>)
      requires Valid() && alive
      modifies this`visited, this`history
      ensures Valid()
      ensures r.Ok? <==> ValidKeyname(root) && Claims(old(history), Key(TAG, root)) == 0
      ensures r.Error? ==> history == old(history)
      ensures r.Ok? && r.value.None? ==>
        Occurrences(tree, Key(TAG, root)) == 0 && history == old(history) + [Claim(Key(TAG, root))]
      ensures r.Ok? && r.value.Some? ==> Occurrences(tree, Key(TAG, root)) > 0
      ensures r.Ok? && r.value.Some? ==> history == old(history) + [Claim(Key(TAG, root)), Read(Key(TAG, root))]
      ensures r.Ok? && r.value.Some? ==>
        fresh(r.value.value) && r.value.value.Valid() && r.value.value.alive &&
          Find(tree.children, root) == Some(r.value.value.tree)
      // the first child with that name, on its own path, with nothing read yet
      ensures r.Ok? && r.value.Some? ==> IsFirst(tree.children, root, r.value.value.tree)
      ensures r.Ok? && r.value.Some? ==> r.value.value.NotRead(if path == "" then root else path + "/" + root)
      ensures r.Ok? && r.value.None? ==>
        forall i :: 0 <= i < |tree.children| ==> tree.children[i].name != root
    {
      FindIsFirst(tree.children, root);
      var key := Key(TAG, root);
      if !CheckUnique(key) {
        return Error;
      }
      TagIsNotXmlAttr(root);
      FindIffNamed(tree.children, root);
      var _ := MarkVisited(key, SUBTREE, Find(tree.children, root).None?);
      match Find(tree.children, root)
      case None =>
        return Ok(None);
      case Some(t) =>
        var sub := new ConfigTree(t, JoinPaths(path, root));
        return Ok(Some(sub));
    }

    /** A subtree that must be there. */
    method GetConfigSubtree(root: string) returns (r: Result<ConfigTree>)
      requires Valid() && alive
      modifies this`visited, this`history
      ensures Valid()
      ensures r.Ok? <==>
        ValidKeyname(root) && Claims(old(history), Key(TAG, root)) == 0 && Occurrences(tree, Key(TAG, root)) > 0
      ensures r.Ok? ==>
        history == old(history) + [Claim(Key(TAG, root)), Read(Key(TAG, root))] && fresh(r.value) && r.value.Valid()
      ensures r.Ok? ==> Find(tree.children, root) == Some(r.value.tree)
      ensures r.Ok? ==>
        IsFirst(tree.children, root, r.value.tree) &&
        r.value.NotRead(if path == "" then root else path + "/" + root)
    {
      var sub := GetConfigSubtreeOptional(root);
      match sub
      case Error => return Error;
      case Ok(None) => return Error;
      case Ok(Some(t)) => return Ok(t);
    }

    /** The subtrees with a name: the key is claimed, nothing is read before the iterator is used. */
    method GetList(root: string, kind: Type) returns (r: Result<ListIterator>)
      requires Valid() && alive
      modifies this`visited, this`history
      ensures Valid()
      ensures r.Ok? <==> ValidKeyname(root) && Claims(old(history), Key(TAG, root)) == 0
      ensures r.Error? ==> history == old(history)
      ensures r.Ok? ==> fresh(r.value) && r.value.Valid() && r.value.parent == this
      ensures r.Ok? ==> r.value.key == Key(TAG, root) && r.value.kind == kind
      ensures r.Ok? ==>
        r.value.pos == 0 && r.value.hasIncremented && |r.value.items| == Occurrences(tree, Key(TAG, root))
      // all children with that name, in the order of the tree
      ensures r.Ok? ==> exists occ :: Listing(tree.children, root, r.value.items, occ)
      ensures r.Ok? ==> history == old(history) + [Claim(Key(TAG, root))]
    {
      ghost var occ := NamedListing(tree.children, root);
      var key := Key(TAG, root);
      if !CheckUnique(key) {
        return Error;
      }
      TagIsNotXmlAttr(root);
      var _ := MarkVisited(key, kind, true);
      var it := new ListIterator(this, key, kind, Named(tree.children, root));
      return Ok(it);
    }

    /** Claims a parameter; it counts as read once, if it is there. */
    method IgnoreConfigParameter(param: string) returns (r: Result<()>)
      requires Valid() && alive
      modifies this`visited, this`history
      ensures Valid()
      ensures r.Ok? <==> ValidKeyname(param) && Claims(old(history), Key(TAG, param)) == 0
      ensures r.Error? ==> history == old(history)
      ensures r.Ok? ==>
        history == old(history) + [Claim(Key(TAG, param))] +
          Repeated(Read(Key(TAG, param)), if Occurrences(tree, Key(TAG, param)) == 0 then 0 else 1)
    {
      var key := Key(TAG, param);
      if !CheckUnique(key) {
        return Error;
      }
      TagIsNotXmlAttr(param);
      FindIffNamed(tree.children, param);
      var _ := MarkVisited(key, SUBTREE, Find(tree.children, param).None?);
      return Ok(());
    }

    /** Claims a parameter; it counts as read as often as it is there. */
    method IgnoreConfigParameterAll(param: string) returns (r: Result<()>)
      requires Valid() && alive
      modifies this`visited, this`history
      ensures Valid()
      ensures r.Ok? <==> ValidKeyname(param) && Claims(old(history), Key(TAG, param)) == 0
      ensures r.Error? ==> history == old(history)
      ensures r.Ok? ==>
        history == old(history) + [Claim(Key(TAG, param))] +
          Repeated(Read(Key(TAG, param)), Occurrences(tree, Key(TAG, param)))
    {
      var key := Key(TAG, param);
      ClaimedOnce(visited, history, key);
      hide Accounts, Claims, Reads, Repeated;
      if !CheckUnique(key) {
        return Error;
      }
      TagIsNotXmlAttr(param);
      var _ := MarkVisited(key, SUBTREE, true);
      var items := Named(tree.children, param);
      ghost var before := history;
      RepeatedStep(before, Read(key), 0);
      for i := 0 to |items|
        invariant alive && Valid() && key in visited
        invariant history == before + Repeated(Read(key), i)
      {
        RepeatedStep(before, Read(key), i);
        CountRead(key);
      }
      return Ok(());
    }

    /** Claims an attribute; it counts as read if it is there. */
    method IgnoreConfigAttribute(attr: string) returns (r: Result<()>)
      requires Valid() && alive
      modifies this`visited, this`history
      ensures Valid()
      ensures r.Ok? <==> ValidKey(Key(ATTR, attr)) && Claims(old(history), Key(ATTR, attr)) == 0
      ensures r.Error? ==> history == old(history)
      ensures r.Ok? ==>
        history == old(history) + [Claim(Key(ATTR, attr))] +
          Repeated(Read(Key(ATTR, attr)), if Occurrences(tree, Key(ATTR, attr)) == 0 then 0 else 1)
    {
      var key := Key(ATTR, attr);
      if !CheckUnique(key) {
        return Error;
      }
      FindIffNamed(Attributes(tree), attr);
      var _ := MarkVisited(key, SUBTREE, Find(Attributes(tree), attr).None?);
      return Ok(());
    }

    /** The value of an attribute, if it is there; a value that cannot be converted is an error, but counts as read. */
    method GetConfigAttributeOptional<T>(attr: string, kind: Type, convert: string -> Option<T>)
      returns (r: Result<Option<T>>)
      requires Valid() && alive
      modifies this`visited, this`history
      ensures Valid()
      ensures !ValidKey(Key(ATTR, attr)) || Claims(old(history), Key(ATTR, attr)) > 0 ==>
        r.Error? && history == old(history)
      ensures ValidKey(Key(ATTR, attr)) && Claims(old(history), Key(ATTR, attr)) == 0 ==> (
        match Find(Attributes(tree), attr)
        case None => r == Ok(None) && history == old(history) + [Claim(Key(ATTR, attr))]
        case Some(a) =>
          history == old(history) + [Claim(Key(ATTR, attr)), Read(Key(ATTR, attr))] &&
          r == if convert(a.data).Some? then Ok(convert(a.data)) else Error)
      // the first attribute with that name
      ensures r.Ok? && r.value.Some? ==> exists a :: IsFirst(Attributes(tree), attr, a) && convert(a.data) == r.value
    {
      FindIsFirst(Attributes(tree), attr);
      var key := Key(ATTR, attr);
      if !CheckUnique(key) {
        return Error;
      }
      var _ := MarkVisited(key, kind, true);
      match Find(Attributes(tree), attr)
      case None =>
        return Ok(None);
      case Some(a) =>
        // an attribute that is not there is no read
        CountRead(key);
        if convert(a.data).Some? {
          return Ok(convert(a.data));
        }
        return Error;
    }

    /** The immediate data, which can be read once. */
    method GetValue<T>(convert: string -> Option<T>) returns (r: Result<T>)
      requires Valid() && alive
      modifies this`haveReadData
      ensures Valid() && haveReadData
      ensures r.Ok? <==> !old(haveReadData) && convert(tree.data).Some?
      ensures r.Ok? ==> convert(tree.data) == Some(r.value)
    {
      if haveReadData {
        return Error;
      }
      haveReadData := true;
      match convert(tree.data)
      case Some(v) => return Ok(v);
      case None => return Error;
    }

    /** Warns about every key that was not read as often as it is there, and invalidates the tree. */
    method CheckAndInvalidate() returns (warnings: set<Warning>)
      requires Valid()
      modifies this`visited, this`alive
      ensures !alive && (!old(alive) ==> warnings == {})
      ensures old(alive) ==> forall key: Key :: Warned(warnings, key, Reads(history, key) - Occurrences(tree, key))
      ensures old(alive) ==> (DataNotRead in warnings <==> !haveReadData && tree.data != "")
    {
      if !alive {
        return {};
      }
      ghost var v := visited;
      warnings := {};
      if !haveReadData && tree.data != "" {
        warnings := {DataNotRead};
      }
      DecrementAll(tree.children, TAG);
      DecrementAll(Attributes(tree), ATTR);
      forall key: Key
        ensures CountOf(visited, key) == Reads(history, key) - Occurrences(tree, key)
      {
        assert CountOf(v, key) == Reads(history, key);
      }
      warnings := WarnAboutCounts(warnings);
      alive := false;
    }

    /** Decrements the counter of a key, which may not have been claimed. */
    method MarkVisitedDecrement(key: Key)
      modifies this`visited
      ensures forall k: Key :: CountOf(visited, k) == CountOf(old(visited), k) - if k == key then 1 else 0
    {
      if key !in visited {
        visited := visited[key := Count(-1, SUBTREE)];
      } else {
        visited := visited[key := visited[key].(count := visited[key].count - 1)];
      }
    }

    /** Decrements the counters of all children, or of all attributes. */
    method DecrementAll(children: seq<Child>, attr: Attr)
      modifies this`visited
      ensures forall k: Key :: CountOf(visited, k) == CountOf(old(visited), k) - PresentAs(children, attr, k)
    {
      for i := 0 to |children|
        invariant forall k: Key :: CountOf(visited, k) == CountOf(old(visited), k) - PresentAs(children[..i], attr, k)
      {
        assert children[..i + 1][..i] == children[..i];
        if attr == ATTR || children[i].name != XML_ATTR {
          MarkVisitedDecrement(Key(attr, children[i].name));
        }
      }
      assert children[..|children|] == children;
    }

    /** Adds a warning for every counter that is not zero. */
    method WarnAboutCounts(before: set<Warning>) returns (warnings: set<Warning>)
      requires forall k: Key :: Warned(before, k, 0)
      ensures forall k: Key :: Warned(warnings, k, CountOf(visited, k))
      ensures DataNotRead in warnings <==> DataNotRead in before
    {
      warnings := before;
      var todo := visited.Keys;
      while todo != {}
        invariant todo <= visited.Keys
        invariant forall k: Key :: Warned(warnings, k, if k in todo then 0 else CountOf(visited, k))
        invariant DataNotRead in warnings <==> DataNotRead in before
      {
        var k :| k in todo;
        var count := visited[k].count;
        assert Warned(warnings, k, 0);
        if count > 0 {
          warnings := warnings + {ReadMore(k, count)};
        } else if count < 0 {
          warnings := warnings + {ReadLess(k, -count)};
        }
        todo := todo - {k};
      }
    }
  }

  ghost function CountOf(visited: map<Key, Count>, key: Key): int {
    if key in visited then visited[key].count else 0
  }

  /** How often a key is among the children, or attributes, of a level. */
  ghost function PresentAs(children: seq<Child>, attr: Attr, key: Key): nat {
    if key.attr != attr || (attr == TAG && key.name == XML_ATTR) then 0 else |Named(children, key.name)|
  }

  function JoinPaths(p1: string, p2: string): string {
    if p1 == "" then p2 else p1 + "/" + p2
  }

  /** An iterator over the subtrees with one name, which tells the parent once for each position it
      is dereferenced at. */
  class ListIterator {
    const parent: ConfigTree
    const key: Key
    const kind: Type
    const items: seq<PTree>
    var pos: nat
    var hasIncremented: bool

    ghost predicate Valid()
      reads this, parent
    {
      pos <= |items| && parent.Valid() && key.attr == TAG &&
        (exists occ :: Listing(parent.tree.children, key.name, items, occ)) &&
        (parent.alive ==> key in parent.visited && parent.visited[key].kind == kind)
    }

    constructor (parent: ConfigTree, key: Key, kind: Type, items: seq<PTree>)
      requires parent.Valid() && key.attr == TAG && exists occ :: Listing(parent.tree.children, key.name, items, occ)
      requires parent.alive ==> key in parent.visited && parent.visited[key].kind == kind
      ensures Valid() && this.parent == parent && this.key == key && this.kind == kind && this.items == items
      ensures pos == 0 && hasIncremented
    {
      this.parent := parent;
      this.key := key;
      this.kind := kind;
      this.items := items;
      pos := 0;
      hasIncremented := true;
    }

    method Next()
      requires Valid() && pos < |items|
      modifies this
      ensures Valid() && pos == old(pos) + 1 && hasIncremented
    {
      pos := pos + 1;
      hasIncremented := true;
    }

    /** The subtree at the position.  It counts as read the first time only. */
    method Deref() returns (r: Result<ConfigTree>)
      requires Valid() && pos < |items| && parent.alive && parent as object != this
      modifies this`hasIncremented, parent`visited, parent`history
      ensures Valid() && parent.Valid() && !hasIncremented
      // the error about another type never occurs
      ensures r.Ok? && fresh(r.value) && r.value.Valid() && r.value.alive && r.value.tree == items[pos]
      // the child at the position with that number among the positions of the name
      ensures exists occ :: (
        Listing(parent.tree.children, key.name, items, occ) && r.value.tree == parent.tree.children[occ[pos]].tree)
      ensures r.value.NotRead(if parent.path == "" then key.name else parent.path + "/" + key.name)
      ensures parent.history == old(parent.history) + if old(hasIncremented) then [Read(key)] else []
    {
      // a read counts only the first time at a position
      if hasIncremented {
        hasIncremented := false;
        var ok := parent.MarkVisited(key, kind, false);
        if !ok {
          return Error;
        }
      }
      var sub := new ConfigTree(items[pos], JoinPaths(parent.path, key.name));
      return Ok(sub);
    }
  }

  /** Iterating over a whole list and dereferencing at every position, any positive number of times, counts
      as many reads as there are subtrees, so that no warning about the key is left. */
  method ReadWholeList(t: ConfigTree, root: string, kind: Type, times: nat -> nat)
    returns (r: Result<()>, warnings: set<Warning>)
    requires t.Valid() && t.alive && forall i :: times(i) > 0
    modifies t
    ensures r.Ok? <==> ValidKeyname(root) && Claims(old(t.history), Key(TAG, root)) == 0
    ensures r.Ok? ==>
      t.history == old(t.history) + [Claim(Key(TAG, root))] +
        Repeated(Read(Key(TAG, root)), Occurrences(t.tree, Key(TAG, root)))
    ensures r.Ok? ==> forall n :: ReadMore(Key(TAG, root), n) !in warnings && ReadLess(Key(TAG, root), n) !in warnings
  {
    hide Accounts, Claims, Reads, Repeated, Warned, Occurrences;
    var key := Key(TAG, root);
    ClaimedOnce(t.visited, t.history, key);
    NotClaimedNotRead(t.visited, t.history, key);
    var list := t.GetList(root, kind);
    if list.Error? {
      return Error, {};
    }
    Iterate(list.value, |list.value.items|, times);
    AllPositionsRead(times, |list.value.items|);
    ReadsOfList(old(t.history), key, |list.value.items|);
    warnings := t.CheckAndInvalidate();
    assert Warned(warnings, key, 0);
    NotWarned(warnings, key);
    return Ok(()), warnings;
  }

  /** The number of the first n positions that are dereferenced. */
  ghost function PositionsRead(times: nat -> nat, n: nat): nat {
    if n == 0 then 0 else PositionsRead(times, n - 1) + if times(n - 1) > 0 then 1 else 0
  }

  lemma {:induction false} AllPositionsRead(times: nat -> nat, n: nat)
    requires forall i :: times(i) > 0
    ensures PositionsRead(times, n) == n
  {
    if n > 0 {
      AllPositionsRead(times, n - 1);
    }
  }

  function Min(a: nat, b: nat): nat {
    if a <= b then a else b
  }

  /** Uses an iterator up to a position or to its end, dereferencing it some number of times at each position. */
  method Iterate(it: ListIterator, upTo: nat, times: nat -> nat)
    requires it.Valid() && it.parent.alive && it.pos == 0 && it.hasIncremented
    modifies it, it.parent`visited, it.parent`history
    ensures it.parent.Valid()
    ensures it.parent.history == old(it.parent.history) +
      Repeated(Read(it.key), PositionsRead(times, Min(upTo, |it.items|)))
  {
    hide Accounts, Repeated;
    ghost var before := it.parent.history;
    RepeatedStep(before, Read(it.key), 0);
    while it.pos < |it.items| && it.pos < upTo
      invariant it.pos <= upTo
      invariant it.Valid() && it.parent.Valid() && it.parent.alive && it.hasIncremented
      invariant it.parent.history == before + Repeated(Read(it.key), PositionsRead(times, it.pos))
      decreases |it.items| - it.pos
    {
      RepeatedStep(before, Read(it.key), PositionsRead(times, it.pos));
      DereferenceOften(it, times(it.pos));
      it.Next();
    }
  }

  method DereferenceOften(it: ListIterator, n: nat)
    requires it.Valid() && it.pos < |it.items| && it.parent.alive && it.hasIncremented
    modifies it`hasIncremented, it.parent`visited, it.parent`history
    ensures it.Valid() && it.parent.Valid()
    ensures it.parent.history == if n > 0 then old(it.parent.history) + [Read(it.key)] else old(it.parent.history)
  {
    hide Accounts;
    for i := 0 to n
      invariant it.Valid() && it.hasIncremented == (i == 0)
      invariant it.parent.history == if i > 0 then old(it.parent.history) + [Read(it.key)] else old(it.parent.history)
    {
      var _ := it.Deref();
    }
  }

  lemma NotClaimedNotRead(visited: map<Key, Count>, history: seq<Event>, key: Key)
    requires Accounts(visited, history)
    ensures Claims(history, key) == 0 ==> Reads(history, key) == 0
  {
  }

  lemma {:induction false} ReadsOfList(history: seq<Event>, key: Key, n: nat)
    ensures Reads(history + [Claim(key)] + Repeated(Read(key), n), key) == Reads(history, key) + n
  {
    if n > 0 {
      ReadsOfList(history, key, n - 1);
      assert Repeated(Read(key), n) == Repeated(Read(key), n - 1) + [Read(key)];
      assert history + [Claim(key)] + Repeated(Read(key), n) == history + [Claim(key)] + Repeated(Read(key), n - 1) +
        [Read(key)];
    } else {
      assert history + [Claim(key)] + Repeated(Read(key), 0) == history + [Claim(key)];
    }
  }

  // ---- runs ----

  /** One access to a tree.  A list is iterated up to a position, dereferencing some number of times at each. */
  datatype Access =
    | Subtree(root: string)
    | SubtreeOptional(root: string)
    | List(root: string, kind: Type, upTo: nat, times: nat -> nat)
    | Ignore(param: string)
    | IgnoreAll(param: string)
    | IgnoreAttribute(attr: string)
    | Attribute(attr: string, kind: Type, convert: string -> Option<string>)

  function KeyOf(a: Access): Key {
    match a
    case Subtree(root) => Key(TAG, root)
    case SubtreeOptional(root) => Key(TAG, root)
    case List(root, _, _, _) => Key(TAG, root)
    case Ignore(param) => Key(TAG, param)
    case IgnoreAll(param) => Key(TAG, param)
    case IgnoreAttribute(attr) => Key(ATTR, attr)
    case Attribute(attr, _, _) => Key(ATTR, attr)
  }

  /** The access is no error by itself: the name is valid, what must be there is there, a value can be converted. */
  ghost predicate Allowed(tree: PTree, a: Access) {
    ValidKey(KeyOf(a)) && (a.Subtree? ==> Occurrences(tree, KeyOf(a)) > 0) &&
    (a.Attribute? ==>
       match Find(Attributes(tree), a.attr)
       case None => true
       case Some(t) => a.convert(t.data).Some?)
  }

  /** How many reads the access stands for. */
  ghost function Counted(tree: PTree, a: Access): nat {
    match a
    case IgnoreAll(_) => Occurrences(tree, KeyOf(a))
    case List(_, _, upTo, times) => PositionsRead(times, Min(upTo, Occurrences(tree, KeyOf(a))))
    case _ => if Occurrences(tree, KeyOf(a)) == 0 then 0 else 1
  }

  ghost function Log(tree: PTree, a: Access): seq<Event> {
    [Claim(KeyOf(a))] + Repeated(Read(KeyOf(a)), Counted(tree, a))
  }

  ghost function LogAll(tree: PTree, accesses: seq<Access>): seq<Event> {
    if accesses == [] then [] else
      LogAll(tree, accesses[..|accesses| - 1]) + Log(tree, accesses[|accesses| - 1])
  }

  /** No two accesses name the same key. */
  ghost predicate DifferentKeys(accesses: seq<Access>) {
    forall i, j :: 0 <= i < j < |accesses| ==> KeyOf(accesses[i]) != KeyOf(accesses[j])
  }

  /** How many reads of a key the accesses stand for. */
  ghost function TotalReads(tree: PTree, accesses: seq<Access>, key: Key): nat {
    if accesses == [] then 0 else
      var last := accesses[|accesses| - 1];
      TotalReads(tree, accesses[..|accesses| - 1], key) + if KeyOf(last) == key then Counted(tree, last) else 0
  }

  /** With different keys the reads of a key are those of the one access that names it, if there is one. */
  lemma {:induction false} TotalReadsOfOne(tree: PTree, accesses: seq<Access>, key: Key)
    requires DifferentKeys(accesses)
    ensures forall i :: 0 <= i < |accesses| && KeyOf(accesses[i]) == key ==>
      TotalReads(tree, accesses, key) == Counted(tree, accesses[i])
    ensures (forall i :: 0 <= i < |accesses| ==> KeyOf(accesses[i]) != key) ==> TotalReads(tree, accesses, key) == 0
  {
    if accesses != [] {
      var front, last := accesses[..|accesses| - 1], accesses[|accesses| - 1];
      TotalReadsOfOne(tree, front, key);
      hide Counted, KeyOf;
      assert forall i :: 0 <= i < |front| ==> front[i] == accesses[i];
    }
  }

  lemma LogCounts(tree: PTree, a: Access, before: seq<Event>, key: Key)
    ensures Claims(before + Log(tree, a), key) == Claims(before, key) + if KeyOf(a) == key then 1 else 0
    ensures Reads(before + Log(tree, a), key) == Reads(before, key) + if KeyOf(a) == key then Counted(tree, a) else 0
  {
    RepeatedCounts(Read(KeyOf(a)), Counted(tree, a), Claim(key));
    RepeatedCounts(Read(KeyOf(a)), Counted(tree, a), Read(key));
    hide Repeated, Counted, KeyOf;
  }

  lemma {:induction false} RepeatedCounts(e: Event, n: nat, f: Event)
    ensures multiset(Repeated(e, n))[f] == if e == f then n else 0
  {
    if n > 0 {
      RepeatedCounts(e, n - 1, f);
      assert Repeated(e, n) == Repeated(e, n - 1) + [e];
    }
  }

  /** Some access names the key. */
  ghost predicate Involves(accesses: seq<Access>, key: Key) {
    exists i :: 0 <= i < |accesses| && KeyOf(accesses[i]) == key
  }

  lemma NamedByFront(accesses: seq<Access>, key: Key)
    requires accesses != []
    ensures Involves(accesses, key) <==>
      Involves(accesses[..|accesses| - 1], key) || KeyOf(accesses[|accesses| - 1]) == key
  {
    hide KeyOf;
    var front := accesses[..|accesses| - 1];
    if i :| 0 <= i < |front| && KeyOf(front[i]) == key {
      assert KeyOf(accesses[i]) == key;
    }
    if i :| 0 <= i < |front| && KeyOf(accesses[i]) == key {
      assert KeyOf(front[i]) == key;
    }
  }

  /** What the history of a run says about a key. */
  lemma {:induction false} LogAllMeans(tree: PTree, accesses: seq<Access>, key: Key)
    ensures Claims(LogAll(tree, accesses), key) > 0 <==> Involves(accesses, key)
    ensures Reads(LogAll(tree, accesses), key) == TotalReads(tree, accesses, key)
  {
    hide Log, KeyOf, Counted;
    if accesses != [] {
      var front, last := accesses[..|accesses| - 1], accesses[|accesses| - 1];
      LogAllMeans(tree, front, key);
      LogCounts(tree, last, LogAll(tree, front), key);
      NamedByFront(accesses, key);
      hide Claims, Reads, Involves;
    }
  }

  /** Performs one access; true if it did not end in an error. */
  method Perform(t: ConfigTree, a: Access) returns (ok: bool)
    requires t.Valid() && t.alive
    modifies t`visited, t`history
    ensures t.Valid()
    ensures ok <==> Allowed(t.tree, a) && Claims(old(t.history), KeyOf(a)) == 0
    ensures ok ==> t.history == old(t.history) + Log(t.tree, a)
  {
    hide Accounts, Claims, Reads, ValidKeyname, Named, Find;
    ghost var before := t.history;
    LogParts(t.tree, a, before);
    match a
    case Subtree(root) =>
      var r := t.GetConfigSubtree(root);
      ok := r.Ok?;
    case SubtreeOptional(root) =>
      var r := t.GetConfigSubtreeOptional(root);
      ok := r.Ok?;
    case List(root, kind, upTo, times) =>
      var r := t.GetList(root, kind);
      ok := r.Ok?;
      if ok {
        Iterate(r.value, upTo, times);
      }
    case Ignore(param) =>
      var r := t.IgnoreConfigParameter(param);
      ok := r.Ok?;
    case IgnoreAll(param) =>
      var r := t.IgnoreConfigParameterAll(param);
      ok := r.Ok?;
    case IgnoreAttribute(attr) =>
      var r := t.IgnoreConfigAttribute(attr);
      ok := r.Ok?;
    case Attribute(attr, kind, convert) =>
      FindIffNamed(Attributes(t.tree), attr);
      var r := t.GetConfigAttributeOptional(attr, kind, convert);
      ok := r.Ok?;
  }

  lemma LogParts(tree: PTree, a: Access, before: seq<Event>)
    ensures before + Log(tree, a) == before + [Claim(KeyOf(a))] + Repeated(Read(KeyOf(a)), Counted(tree, a))
    ensures Counted(tree, a) == 0 ==> before + Log(tree, a) == before + [Claim(KeyOf(a))]
    ensures Counted(tree, a) == 1 ==> before + Log(tree, a) == before + [Claim(KeyOf(a)), Read(KeyOf(a))]
  {
  }

  /** A run of accesses on a new tree, and the check at its end.  The run succeeds iff every access is allowed by
      itself and no key is named twice.  Then the warnings about a key give the difference of its reads and its
      occurrences. */
  method Run(tree: PTree, path: string, accesses: seq<Access>) returns (ok: bool, warnings: set<Warning>)
    ensures ok <==> (forall i :: 0 <= i < |accesses| ==> Allowed(tree, accesses[i])) && DifferentKeys(accesses)
    ensures ok ==> forall key: Key :: Warned(warnings, key, TotalReads(tree, accesses, key) - Occurrences(tree, key))
  {
    hide Accounts, Claims, Reads, Allowed, Log, KeyOf, Warned, Occurrences, TotalReads;
    var t := new ConfigTree(tree, path);
    for i := 0 to |accesses|
      invariant t.Valid() && t.alive && fresh(t) && t.tree == tree
      invariant t.history == LogAll(tree, accesses[..i])
      invariant forall j :: 0 <= j < i ==> Allowed(tree, accesses[j])
      invariant DifferentKeys(accesses[..i])
    {
      LogAllMeans(tree, accesses[..i], KeyOf(accesses[i]));
      assert accesses[..i + 1][..i] == accesses[..i];
      var allowed := Perform(t, accesses[i]);
      if !allowed {
        if Allowed(tree, accesses[i]) {
          var j :| 0 <= j < i && KeyOf(accesses[..i][j]) == KeyOf(accesses[i]);
          assert KeyOf(accesses[j]) == KeyOf(accesses[i]);
        }
        return false, {};
      }
    }
    assert accesses[..|accesses|] == accesses;
    ok := true;
    warnings := t.CheckAndInvalidate();
    forall key: Key
      ensures Warned(warnings, key, TotalReads(tree, accesses, key) - Occurrences(tree, key))
    {
      LogAllMeans(tree, accesses, key);
    }
  }

  /** A list of two is read at its second position only: the second child is handed out, and the key is
      warned about as read once too little. */
  method ReadSecond() returns (data: string, warnings: set<Warning>)
    ensures data == "2" && ReadLess(Key(TAG, "a"), 1) in warnings && ReadMore(Key(TAG, "a"), 1) !in warnings
  {
    hide Accounts, Claims, Reads, Warned, Occurrences, ValidKeyname, Named, Listing, IsFirst, CheckedAttribute;
    var children := [Child("a", PTree("1", [])), Child("a", PTree("2", []))];
    var key := Key(TAG, "a");
    var t := new ConfigTree(PTree("", children), "");
    NamedTwice(t.tree);
    var list := t.GetList("a", SUBTREE);
    var it := list.value;
    ListedTwice(t.tree, it.items);
    it.Next();
    var second := it.Deref();
    data := second.value.tree.data;
    ReadOnce(t.history);
    warnings := t.CheckAndInvalidate();
    WarnedOnce(warnings, key, Reads(t.history, key) - Occurrences(t.tree, key));
  }

  lemma NamedTwice(tree: PTree)
    requires tree.children == [Child("a", PTree("1", [])), Child("a", PTree("2", []))]
    ensures ValidKeyname("a") && Occurrences(tree, Key(TAG, "a")) == 2 && Claims([], Key(TAG, "a")) == 0
  {
    var children := tree.children;
    assert children[..1] == [children[0]] && children[..1][..0] == [];
    assert Named(children[..1], "a") == [children[0].tree];
  }

  lemma ListedTwice(tree: PTree, items: seq<PTree>)
    requires tree.children == [Child("a", PTree("1", [])), Child("a", PTree("2", []))] && |items| == 2
    requires exists occ :: Listing(tree.children, "a", items, occ)
    ensures items[1].data == "2"
  {
    var occ :| Listing(tree.children, "a", items, occ);
    assert occ[0] < occ[1] < 2;
    assert tree.children[occ[1]] == Child("a", items[1]);
  }

  lemma ReadOnce(history: seq<Event>)
    requires history == [] + [Claim(Key(TAG, "a"))] + [Read(Key(TAG, "a"))]
    ensures Reads(history, Key(TAG, "a")) == 1
  {
  }

  lemma WarnedOnce(warnings: set<Warning>, key: Key, surplus: int)
    requires Warned(warnings, key, surplus) && surplus == -1
    ensures ReadLess(key, 1) in warnings && ReadMore(key, 1) !in warnings
  {
  }
}
