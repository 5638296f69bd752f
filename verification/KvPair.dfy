/** The key=value lists of core/kv_pair.c, and what KV_STYLE_PAIR prints of them. */
module KvPair {
  import opened Basics

  class Node {
    var key: Option<string>
    var value: Option<string>
    var next: Node?

    constructor ()
      ensures key == None && value == None && next == null
    {
      key, value, next := None, None, null;
    }
  }

  function From(ns: seq<Node>, i: nat): Node?
    requires i <= |ns|
  {
    if i == |ns| then null else ns[i]
  }

  /** The nodes, each once, hang together in this order. */
  ghost predicate Chained(ns: seq<Node>)
    reads ns
  {
    && (forall i, j :: 0 <= i < j < |ns| ==> ns[i] != ns[j])
    && forall i :: 0 <= i < |ns| ==> ns[i].next == From(ns, i + 1)
  }

  datatype Entry = Entry(key: Option<string>, value: Option<string>)
  datatype Pair = Pair(key: string, value: string)

  function Entries(ns: seq<Node>): (es: seq<Entry>)
    reads ns
    ensures |es| == |ns| && forall i :: 0 <= i < |ns| ==> es[i] == Entry(ns[i].key, ns[i].value)
  {
    seq(|ns|, i requires 0 <= i < |ns| reads ns => Entry(ns[i].key, ns[i].value))
  }

  /** The pairs that have both a key and a value. */
  function Pairs(es: seq<Entry>): (ps: seq<Pair>) {
    if es == [] then [] else
    (if es[0].key.Some? && es[0].value.Some? then [Pair(es[0].key.value, es[0].value.value)] else []) + Pairs(es[1..])
  }

  lemma {:induction false} PairsNext(es: seq<Entry>, e: Entry)
    ensures Pairs(es + [e]) == Pairs(es) + if e.key.Some? && e.value.Some? then [Pair(e.key.value, e.value.value)] else []
  {
    if es == [] {
      assert [] + [e] == [e] && [e][1..] == [];
    } else {
      assert (es + [e])[1..] == es[1..] + [e] && (es + [e])[0] == es[0];
      PairsNext(es[1..], e);
    }
  }

  method FindEnd(list: Node, ghost ns: seq<Node>, ghost k: nat) returns (ptr: Node)
    requires Chained(ns) && k < |ns| && ns[k] == list
    ensures ptr == ns[|ns| - 1] && forall i :: 0 <= i < |ns| - 1 ==> ns[i] != ptr
  {
    ptr := list;
    ghost var i := k;
    while ptr.next != null
      invariant k <= i < |ns| && ptr == ns[i]
      decreases |ns| - i
    {
      ptr := ptr.next;
      i := i + 1;
    }
  }

  /** kv_pair_add: a new pair behind the last one of the list, whatever node of it is given. */
  method Add(list: Node?, key: Option<string>, value: Option<string>, ghost ns: seq<Node>, ghost k: nat) returns (n: Node)
    requires Chained(ns)
    requires if list == null then ns == [] else k < |ns| && ns[k] == list
    modifies ns
    ensures fresh(n) && Chained(ns + [n])
    ensures Entries(ns + [n]) == old(Entries(ns)) + [Entry(key, value)]
  {
    hide Chained, Entries;
    n := New(key, value);
    if list != null {
      var ptr := FindEnd(list, ns, k);
      ptr.next := n;
    }
    assert OnlyLast(ns, n);
    hide OnlyLast;
    Appended(ns, n);
  }

  /** kv_pair_new, and the strings that are given. */
  method New(key: Option<string>, value: Option<string>) returns (n: Node)
    ensures fresh(n) && n.key == key && n.value == value && n.next == null
  {
    n := new Node();
    if key.Some? {
      n.key := key;
    }
    if value.Some? {
      n.value := value;
    }
  }

  /** Only the last node of the list has changed, and now leads to `n`. */
  twostate predicate OnlyLast(ns: seq<Node>, new n: Node)
    reads ns
  {
    && (forall i :: 0 <= i < |ns| ==> ns[i].key == old(ns[i].key) && ns[i].value == old(ns[i].value))
    && forall i :: 0 <= i < |ns| ==> ns[i].next == if i == |ns| - 1 then n else old(ns[i].next)
  }

  twostate lemma Appended(ns: seq<Node>, new n: Node)
    requires old(Chained(ns)) && fresh(n) && n.next == null && OnlyLast(ns, n)
    ensures Chained(ns + [n])
    ensures Entries(ns + [n]) == old(Entries(ns)) + [Entry(n.key, n.value)]
  {
    StillChained(ns, n);
    EntriesAppended(ns, n);
  }

  twostate lemma StillChained(ns: seq<Node>, new n: Node)
    requires old(Chained(ns)) && fresh(n) && n.next == null && OnlyLast(ns, n)
    ensures Chained(ns + [n])
  {
    var ns' := ns + [n];
    forall i | 0 <= i < |ns'| ensures ns'[i].next == From(ns', i + 1) {
      if i < |ns| {
        assert old(ns[i].next) == From(ns, i + 1);
      }
    }
    forall i, j | 0 <= i < j < |ns'| ensures ns'[i] != ns'[j] {
      assert j < |ns| ==> ns[i] != ns[j];
    }
  }

  twostate lemma EntriesAppended(ns: seq<Node>, new n: Node)
    requires OnlyLast(ns, n)
    ensures Entries(ns + [n]) == old(Entries(ns)) + [Entry(n.key, n.value)]
  {
    var es, es' := old(Entries(ns)), Entries(ns + [n]);
    hide Entries;
    forall i | 0 <= i < |es'| ensures es'[i] == (es + [Entry(n.key, n.value)])[i] {}
  }

  function Escape(value: string): string {
    if value == "" then "" else (if value[0] == '"' then "\\\"" else [value[0]]) + Escape(value[1..])
  }

  lemma {:induction false} EscapeNext(value: string, i: nat)
    requires i < |value|
    ensures Escape(value[..i + 1]) == Escape(value[..i]) + if value[i] == '"' then "\\\"" else [value[i]]
  {
    if i > 0 {
      EscapeNext(value[1..], i - 1);
      assert value[..i + 1][1..] == value[1..][..i];
      assert value[..i][1..] == value[1..][..i - 1];
    } else {
      assert value[..1] == [value[0]] && value[..0] == "";
    }
  }

  function PairText(p: Pair): string {
    p.key + "=\"" + Escape(p.value) + "\" "
  }

  function Text(ps: seq<Pair>): string {
    if ps == [] then "" else PairText(ps[0]) + Text(ps[1..])
  }

  lemma {:induction false} TextNext(ps: seq<Pair>, p: Pair)
    ensures Text(ps + [p]) == Text(ps) + PairText(p)
  {
    if ps == [] {
      assert Text([p]) == PairText(p) + Text([]);
    } else {
      assert (ps + [p])[1..] == ps[1..] + [p];
      TextNext(ps[1..], p);
    }
  }

  /** kv_pair_print_to_file with KV_STYLE_PAIR. A pair without a key or without a value is passed over. */
  method PrintToFile(list: Node?, ghost ns: seq<Node>) returns (ret: int, out: string)
    requires Chained(ns) && list == From(ns, 0)
    ensures ret == 0 && out == Text(Pairs(Entries(ns))) + "\n"
  {
    hide Text, Pairs, PairText;
    ghost var es := Entries(ns);
    out := "";
    var ptr := list;
    ghost var i := 0;
    NothingPrinted(es);
    while ptr != null
      invariant i <= |ns| && ptr == From(ns, i)
      invariant out == Text(Pairs(es[..i]))
      decreases |ns| - i
    {
      EntryPrints(es, i);
      if ptr.key.Some? && ptr.value.Some? {
        out := PrintPair(out, ptr.key.value, ptr.value.value);
      }
      ptr := ptr.next;
      i := i + 1;
    }
    assert es[..i] == es;
    out := out + "\n";
    ret := 0;
  }

  lemma NothingPrinted(es: seq<Entry>)
    ensures Text(Pairs(es[..0])) == ""
  {
  }

  lemma EntryPrints(es: seq<Entry>, i: nat)
    requires i < |es|
    ensures Text(Pairs(es[..i + 1])) == Text(Pairs(es[..i]))
      + if es[i].key.Some? && es[i].value.Some? then PairText(Pair(es[i].key.value, es[i].value.value)) else ""
  {
    PairsNext(es[..i], es[i]);
    assert es[..i + 1] == es[..i] + [es[i]];
    if es[i].key.Some? && es[i].value.Some? {
      TextNext(Pairs(es[..i]), Pair(es[i].key.value, es[i].value.value));
    } else {
      assert Pairs(es[..i]) + [] == Pairs(es[..i]);
    }
  }

  /** The KV_STYLE_PAIR case: the quotes in the value are escaped. */
  method PrintPair(start: string, key: string, value: string) returns (out: string)
    ensures out == start + PairText(Pair(key, value))
  {
    out := start + (key + "=\"");
    var i, len := 0, |value|;
    while i < len
      invariant 0 <= i <= len && out == start + (key + "=\"") + Escape(value[..i])
    {
      EscapeNext(value, i);
      if value[i] == '"' {
        out := out + "\\\"";
      } else {
        out := out + [value[i]];
      }
      i := i + 1;
    }
    assert value[..i] == value;
    out := out + "\" ";
  }

  // ----- reading the text -----

  /** A value up to its closing quote, and what is behind it. Escaped quotes are quotes; any other character,
      the backslash too, is itself. */
  function ReadValue(t: string): Option<(string, string)> {
    if t == "" then None
    else if t[0] == '"' then Some(("", t[1..]))
    else if t[0] == '\\' && |t| > 1 && t[1] == '"' then Behind('"', ReadValue(t[2..]))
    else Behind(t[0], ReadValue(t[1..]))
  }

  function Behind(c: char, r: Option<(string, string)>): Option<(string, string)> {
    if r.None? then None else Some(([c] + r.value.0, r.value.1))
  }

  /** A key up to its '=', and what is behind it. */
  function ReadKey(t: string): Option<(string, string)> {
    if t == "" then None
    else if t[0] == '=' then Some(("", t[1..]))
    else Behind(t[0], ReadKey(t[1..]))
  }

  lemma {:induction false} ReadShortens(t: string)
    ensures ReadKey(t).Some? ==> |ReadKey(t).value.1| < |t|
    ensures ReadValue(t).Some? ==> |ReadValue(t).value.1| < |t|
  {
    if t != "" {
      ReadShortens(t[1..]);
      if |t| > 1 {
        ReadShortens(t[2..]);
      }
    }
  }

  /** The pair at the start of the text, and what is behind it. */
  function ReadPair(t: string): (r: Option<(Pair, string)>)
    ensures r.Some? ==> |r.value.1| < |t|
  {
    ReadShortens(t);
    var key := ReadKey(t);
    if key.None? || key.value.1 == "" || key.value.1[0] != '"' then None else
    ReadShortens(key.value.1[1..]);
    var value := ReadValue(key.value.1[1..]);
    if value.None? || value.value.1 == "" || value.value.1[0] != ' ' then None else
    Some((Pair(key.value.0, value.value.0), value.value.1[1..]))
  }

  /** The pairs of a text that ends with a newline. */
  function Read(t: string): Option<seq<Pair>>
    decreases |t|
  {
    if t == "\n" then Some([]) else
    var p := ReadPair(t);
    if p.None? then None else
    var rest := Read(p.value.1);
    if rest.None? then None else Some([p.value.0] + rest.value)
  }

  predicate Plain(key: string) { '=' !in key }

  predicate EndsInBackslash(value: string) {
    value != "" && value[|value| - 1] == '\\'
  }

  lemma {:induction false} KeyReads(key: string, rest: string)
    requires Plain(key)
    ensures ReadKey(key + "=" + rest) == Some((key, rest))
  {
    if key != "" {
      assert (key + "=" + rest)[1..] == key[1..] + "=" + rest;
      assert key == [key[0]] + key[1..] && key[0] in key;
      KeyReads(key[1..], rest);
    } else {
      assert (key + "=" + rest)[1..] == rest;
    }
  }

  /** A value is read back, or is lost: then its last backslash has made the closing quote part of it. */
  lemma {:induction false} ValueReads(value: string, rest: string)
    ensures var r := ReadValue(Escape(value) + "\"" + rest);
      if EndsInBackslash(value) then r.None? || r.value.0 != value else r == Some((value, rest))
  {
    var t := Escape(value) + "\"" + rest;
    if value == "" {
      assert t[1..] == rest;
    } else {
      var tail := Escape(value[1..]) + "\"" + rest;
      ValueReads(value[1..], rest);
      assert value == [value[0]] + value[1..];
      if value[0] == '"' {
        assert t[2..] == tail;
      } else if value == "\\" {
        assert t[1] == '"';
      } else {
        assert t[1..] == tail;
        assert value[0] == '\\' && value[1..] != "" ==> t[1] == tail[0] != '"';
        assert t[0] == value[0];
      }
    }
  }

  /** A pair is read back, or its value is lost. */
  lemma PairReads(p: Pair, rest: string)
    requires Plain(p.key)
    ensures var r := ReadPair(PairText(p) + rest);
      if EndsInBackslash(p.value) then r.None? || r.value.0.value != p.value else r == Some((p, rest))
  {
    hide Escape, ReadValue, ReadKey, EndsInBackslash, Plain;
    var behind := Escape(p.value) + "\"" + (" " + rest);
    assert PairText(p) + rest == p.key + "=" + ("\"" + behind);
    KeyReads(p.key, "\"" + behind);
    assert ("\"" + behind)[1..] == behind;
    ValueReads(p.value, " " + rest);
    assert (" " + rest)[1..] == rest;
  }

  /** The text tells which pairs it was printed from, if and only if no value ends in a backslash. */
  lemma {:induction false} ReadsBackIff(ps: seq<Pair>)
    requires forall p :: p in ps ==> Plain(p.key)
    ensures Read(Text(ps) + "\n") == Some(ps) <==> forall p :: p in ps ==> !EndsInBackslash(p.value)
  {
    if ps != [] {
      var p, rest := ps[0], Text(ps[1..]) + "\n";
      hide PairText, ReadPair, Plain, EndsInBackslash;
      assert Text(ps) + "\n" == PairText(p) + rest;
      PairReads(p, rest);
      NotTheEnd(p, rest);
      ReadsBackIff(ps[1..]);
      assert ps == [p] + ps[1..];
    }
  }

  lemma NotTheEnd(p: Pair, rest: string)
    ensures PairText(p) + rest != "\n"
  {
    assert |PairText(p)| >= 4;
  }

  lemma {:induction false} NothingToEscape(value: string)
    requires '"' !in value
    ensures Escape(value) == value
  {
    if value != "" {
      assert value[0] in value;
      NothingToEscape(value[1..]);
    }
  }

  /** What the backslash costs: two lists that print the same. */
  lemma Ambiguous() returns (a: seq<Pair>, b: seq<Pair>)
    ensures a != b && Text(a) == Text(b)
    ensures forall p :: p in a + b ==> Plain(p.key)
  {
    hide Text, PairText, Escape;
    a := [Pair("k", "\\"), Pair("a", " b="), Pair("c\" d", "v")];
    b := [Pair("k", "\" a="), Pair("b", " c"), Pair("d", "v")];
    assert a[0] != b[0];
    ThreeTexts(a);
    ThreeTexts(b);
    NothingToEscape("\\");
    NothingToEscape(" b=");
    NothingToEscape(" c");
    NothingToEscape("v");
    QuoteFirst(" a=");
    assert "\" a=" == "\"" + " a=";
    TextOf(a[0], "\\");
    TextOf(a[1], " b=");
    TextOf(a[2], "v");
    TextOf(b[0], "\\\"" + " a=");
    TextOf(b[1], " c");
    TextOf(b[2], "v");
    assert PairText(a[0]) + PairText(a[1]) == PairText(b[0]) + "b=\" ";
    assert "b=\" " + PairText(a[2]) == PairText(b[1]) + PairText(b[2]);
  }

  lemma QuoteFirst(value: string)
    requires '"' !in value
    ensures Escape("\"" + value) == "\\\"" + value
  {
    NothingToEscape(value);
    assert ("\"" + value)[1..] == value;
  }

  lemma TextOf(p: Pair, value: string)
    requires Escape(p.value) == value
    ensures PairText(p) == p.key + "=\"" + value + "\" "
  {
  }

  lemma ThreeTexts(ps: seq<Pair>)
    requires |ps| == 3
    ensures Text(ps) == PairText(ps[0]) + PairText(ps[1]) + PairText(ps[2])
  {
    assert ps[1..][1..] == [ps[2]];
    assert Text([ps[2]]) == PairText(ps[2]) + "";
  }
}
