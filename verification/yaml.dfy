/** `flattenMap`: the walk over a parsed YAML document that writes every scalar leaf
    into the store under its dot-joined path. The YAML parser is not modelled; its
    output is given as a `Yaml` tree. */
module YamlFlatten {
  import opened Wrappers
  import opened Strings
  import opened ConfigStore

  /** A parsed YAML value. `Leaf` holds the `toString()` of any value that is not a
      map (a scalar, or a list printed as a whole); `Null` is an empty value; a
      `Mapping` keeps its entries in document order, as SnakeYAML's map does. */
  datatype Yaml = Leaf(text: string) | Null | Mapping(entries: seq<Entry>)
  datatype Entry = Entry(key: string, value: Yaml)

  /** The key of a child: the parent's key, a dot, then the child's own key, except
      that a child of the empty prefix keeps its own key. */
  function Join(prefix: string, key: string): string
  {
    if prefix == "" then key else prefix + "." + key
  }

  /** The writes one `flattenMap` call performs, in order, and the key of the null
      leaf that stopped it, if one did (`entry.getValue().toString()` throws there). */
  datatype Walk = Walk(writes: seq<Write>, stoppedAt: Option<string>)

  /** No leaf of the tree is `Null`. */
  ghost predicate NullFree(es: seq<Entry>)
  {
    forall i :: 0 <= i < |es| ==>
      es[i].value != Null && (es[i].value.Mapping? ==> NullFree(es[i].value.entries))
  }

  /** `flattenMap(prefix, map)`: entries are visited in order; a nested map is walked
      under the entry's joined key and is never written itself; a leaf is written
      under its joined key; a null leaf ends the walk. Below a non-empty prefix every
      written key is that prefix followed by a dot. */
  function Flatten(prefix: string, es: seq<Entry>): (w: Walk)
    ensures w.stoppedAt.None? <==> NullFree(es)
    ensures prefix != "" ==> forall i :: 0 <= i < |w.writes| ==> StartsWith(w.writes[i].key, prefix + ".")
    decreases es
  {
    if es == [] then Walk([], None)
    else
      var key := Join(prefix, es[0].key);
      var head := match es[0].value
        case Leaf(text) => Walk([Write(key, text)], None)
        case Null => Walk([], Some(key))
        case Mapping(nested) => Flatten(key, nested);
      if head.stoppedAt.Some? then
        head
      else
        var tail := Flatten(prefix, es[1..]);
        NullFreeCons(es);
        assert prefix != "" ==> forall i :: 0 <= i < |head.writes| ==> StartsWith(head.writes[i].key, prefix + ".") by {
          if prefix != "" && es[0].value.Mapping? {
            UnderChildIsUnderParent(head.writes, prefix, es[0].key);
          }
        }
        Walk(head.writes + tail.writes, tail.stoppedAt)
  }

  lemma NullFreeCons(es: seq<Entry>)
    requires es != []
    ensures NullFree(es) <==>
              es[0].value != Null && (es[0].value.Mapping? ==> NullFree(es[0].value.entries)) && NullFree(es[1..])
  {
    if !NullFree(es[1..]) {
      var i :| 0 <= i < |es[1..]| && !(es[1..][i].value != Null
               && (es[1..][i].value.Mapping? ==> NullFree(es[1..][i].value.entries)));
      assert es[i + 1] == es[1..][i];
    }
  }

  /** Keys under the joined key of a child are also under its parent's prefix. */
  lemma UnderChildIsUnderParent(ws: seq<Write>, prefix: string, key: string)
    requires prefix != ""
    requires forall i :: 0 <= i < |ws| ==> StartsWith(ws[i].key, Join(prefix, key) + ".")
    ensures forall i :: 0 <= i < |ws| ==> StartsWith(ws[i].key, prefix + ".")
  {
    forall i | 0 <= i < |ws| ensures StartsWith(ws[i].key, prefix + ".") {
      StartsWithShorter(ws[i].key, prefix + ".", key + ".");
      assert Join(prefix, key) + "." == (prefix + ".") + (key + ".");
    }
  }

  /** The dot-joined form of a path `k1.k2.….kn`. */
  function DotJoin(path: seq<string>): string
    requires |path| > 0
  {
    if |path| == 1 then path[0] else path[0] + "." + DotJoin(path[1..])
  }

  /** The key `flattenMap` builds for a path of entry keys below `prefix`, one
      `Join` per level. */
  function JoinPath(prefix: string, path: seq<string>): string
    decreases |path|
  {
    if path == [] then prefix else JoinPath(Join(prefix, path[0]), path[1..])
  }

  /** Below a non-empty prefix a path is stored as the prefix, a dot, and the
      dot-joined path. */
  lemma {:induction false} JoinPathUnderPrefix(prefix: string, path: seq<string>)
    requires prefix != "" && |path| > 0
    ensures JoinPath(prefix, path) == prefix + "." + DotJoin(path)
    decreases |path|
  {
    if |path| > 1 {
      JoinPathUnderPrefix(prefix + "." + path[0], path[1..]);
    }
  }

  /** From the document root a path whose first key is not empty is stored as
      exactly `k1.k2.….kn`: top-level keys get no leading dot. */
  lemma RootPathHasNoLeadingDot(path: seq<string>)
    requires |path| > 0 && path[0] != ""
    ensures JoinPath("", path) == DotJoin(path)
  {
    if |path| > 1 {
      JoinPathUnderPrefix(path[0], path[1..]);
    }
  }

  /** The tree holds a scalar leaf with text `text` at the key path `path`: each key
      selects an entry of the mapping reached so far, and the last one a `Leaf`. */
  ghost predicate LeafAt(es: seq<Entry>, path: seq<string>, text: string)
    decreases es
  {
    && |path| > 0
    && exists i :: 0 <= i < |es| && es[i].key == path[0] &&
         ((|path| == 1 && es[i].value == Leaf(text)) ||
          (|path| > 1 && es[i].value.Mapping? && LeafAt(es[i].value.entries, path[1..], text)))
  }

  lemma LeafAtInTail(es: seq<Entry>, path: seq<string>, text: string)
    requires es != [] && LeafAt(es[1..], path, text)
    ensures LeafAt(es, path, text)
  {
    var i :| 0 <= i < |es[1..]| && es[1..][i].key == path[0] &&
         ((|path| == 1 && es[1..][i].value == Leaf(text)) ||
          (|path| > 1 && es[1..][i].value.Mapping? && LeafAt(es[1..][i].value.entries, path[1..], text)));
    assert es[i + 1] == es[1..][i];
  }

  /** Only leaves are written: every write of the walk is the text of a leaf, stored
      under the joined path of that leaf. A nested mapping is never stored as a key. */
  lemma {:induction false} FlattenWritesOnlyLeaves(prefix: string, es: seq<Entry>, w: Write)
    requires w in Flatten(prefix, es).writes
    ensures exists path :: LeafAt(es, path, w.value) && JoinPath(prefix, path) == w.key
    decreases es
  {
    var key := Join(prefix, es[0].key);
    var tail := Flatten(prefix, es[1..]).writes;
    match es[0].value {
      case Leaf(text) =>
        assert Flatten(prefix, es).writes == [Write(key, text)] + tail;
        if w == Write(key, text) {
          assert LeafAt(es, [es[0].key], text);
          assert JoinPath(prefix, [es[0].key]) == key;
        } else {
          FlattenWritesOnlyLeaves(prefix, es[1..], w);
          var path :| LeafAt(es[1..], path, w.value) && JoinPath(prefix, path) == w.key;
          LeafAtInTail(es, path, w.value);
        }
      case Null =>
      case Mapping(nested) =>
        var head := Flatten(key, nested).writes;
        if w in head {
          FlattenWritesOnlyLeaves(key, nested, w);
          var path :| LeafAt(nested, path, w.value) && JoinPath(key, path) == w.key;
          var full := [es[0].key] + path;
          assert full[1..] == path;
          assert LeafAt(es, full, w.value);
          assert JoinPath(prefix, full) == w.key;
        } else {
          assert w in tail;
          FlattenWritesOnlyLeaves(prefix, es[1..], w);
          var path :| LeafAt(es[1..], path, w.value) && JoinPath(prefix, path) == w.key;
          LeafAtInTail(es, path, w.value);
        }
    }
  }

  /** Every leaf is written: in a tree without null leaves, the walk writes each
      leaf's text under the joined path of that leaf. */
  lemma {:induction false} FlattenWritesEveryLeaf(prefix: string, es: seq<Entry>, path: seq<string>, text: string)
    requires NullFree(es) && LeafAt(es, path, text)
    ensures Write(JoinPath(prefix, path), text) in Flatten(prefix, es).writes
    decreases es
  {
    var i :| 0 <= i < |es| && es[i].key == path[0] &&
         ((|path| == 1 && es[i].value == Leaf(text)) ||
          (|path| > 1 && es[i].value.Mapping? && LeafAt(es[i].value.entries, path[1..], text)));
    var key := Join(prefix, es[0].key);
    NullFreeCons(es);
    var w := Flatten(prefix, es);
    var tail := Flatten(prefix, es[1..]);
    if i == 0 {
      if |path| == 1 {
        assert w.writes == [Write(key, text)] + tail.writes;
      } else {
        var nested := es[0].value.entries;
        FlattenWritesEveryLeaf(key, nested, path[1..], text);
        assert w.writes == Flatten(key, nested).writes + tail.writes;
      }
    } else {
      assert es[1..][i - 1] == es[i];
      assert LeafAt(es[1..], path, text);
      FlattenWritesEveryLeaf(prefix, es[1..], path, text);
    }
  }
}
