/** XML-RPC values, independently of how they are stored. */
module Values {
  import opened Bytes

  /** Values that contain no other values.  A pointer is an opaque number. */
  datatype Scalar =
    | Int(i: int)
    | Bool(b: bool)
    | Double(d: real)
    | DateTime(stamp: seq<byte>)
    | String(text: seq<byte>)
    | Base64(data: seq<byte>)
    | Nil
    | Pointer(p: nat)

  datatype Entry = Entry(key: seq<byte>, value: Value)

  datatype Value =
    | Atom(scalar: Scalar)
    | ArrayOf(items: seq<Value>)
    | StructOf(entries: seq<Entry>)

  /** A key that comes again gets the later value, in its first place. */
  function SetEntry(entries: seq<Entry>, key: seq<byte>, v: Value): seq<Entry> {
    if entries == [] then [Entry(key, v)]
    else if entries[0].key == key then [Entry(key, v)] + entries[1..]
    else [entries[0]] + SetEntry(entries[1..], key, v)
  }

  lemma {:induction false} SetEntryNew(entries: seq<Entry>, key: seq<byte>, v: Value)
    requires forall i :: 0 <= i < |entries| ==> entries[i].key != key
    ensures SetEntry(entries, key, v) == entries + [Entry(key, v)]
  {
    if entries != [] {
      SetEntryNew(entries[1..], key, v);
    }
  }

  ghost predicate KeysDistinct(es: seq<Entry>) {
    forall i, j :: 0 <= i < j < |es| ==> es[i].key != es[j].key
  }

  lemma NextKeyNew(before: seq<Entry>, es: seq<Entry>)
    requires es != [] && KeysDistinct(before + es)
    ensures forall i :: 0 <= i < |before| ==> before[i].key != es[0].key
    ensures before + [es[0]] + es[1..] == before + es
  {
    forall i | 0 <= i < |before|
      ensures before[i].key != es[0].key
    {
      assert (before + es)[i].key != (before + es)[|before|].key;
    }
  }
}
