/** How deep a resolution has to go in a given world (resolver/resolver.go over
    resolver/dns.go, iprs.go and ipns.go): the number of its entries bounds every chain. */
module Depth {
  import opened Wrappers
  import opened Text
  import opened Library
  import opened IprsPaths
  import opened Dispatch
  import opened Sources
  import opened Resolution

  /** What the lookup for a key depends on: the key, and for an IPNS name, whose CID has many
      texts, the place of its public key in the value store. */
  function EntryOf(lib: Lib, key: Key): Key {
    if key.kind.Ipns? then
      var parts := Split(key.text, '/');
      if |parts| < 3 || lib.cidDecode(parts[2]).None? then Key(Ipns, "")
      else Key(Ipns, "/pk/" + lib.cidBytes(lib.cidDecode(parts[2]).value))
    else key
  }

  function EntriesOf(lib: Lib): Key -> Key {
    (key: Key) => EntryOf(lib, key)
  }

  lemma {:induction false} EntriesDecide(lib: Lib, w: World, a: Key, b: Key)
    requires CidLaws(lib) && EntryOf(lib, a) == EntryOf(lib, b)
    ensures GetValue(lib, w, a) == GetValue(lib, w, b)
  {
    hide Split;
    if a.kind.Ipns? {
      var parts, other := Split(a.text, '/'), Split(b.text, '/');
      if |parts| >= 3 && |other| >= 3 && lib.cidDecode(parts[2]).Some? && lib.cidDecode(other[2]).Some? {
        var c, d := lib.cidDecode(parts[2]).value, lib.cidDecode(other[2]).value;
        SameTail("/pk/", lib.cidBytes(c), lib.cidBytes(d));
        assert lib.cidCast(lib.cidBytes(c)) == Some(c) && lib.cidCast(lib.cidBytes(d)) == Some(d);
      }
    }
  }

  lemma {:induction false} SameTail(front: string, a: string, b: string)
    requires front + a == front + b
    ensures a == b
  {
    assert a == (front + a)[|front|..] == (front + b)[|front|..] == b;
  }

  const DNSLINK: string := "_dnslink."

  /** The entry a stored value can serve: public keys lie under "/pk/". */
  function StoredEntry(k: string): Key {
    if "/pk/" <= k then Key(Ipns, k) else Key(Iprs, k)
  }

  function DomainEntry(n: string): Key {
    Key(Dns, n)
  }

  function SubdomainEntry(n: string): Key {
    Key(Dns, if DNSLINK <= n then n[|DNSLINK|..] else n)
  }

  ghost function Image<A(!new), B>(f: A -> B, items: set<A>): set<B> {
    set x | x in items :: f(x)
  }

  ghost function Entries(w: World): set<Key> {
    Image(DomainEntry, w.txt.Keys) + Image(SubdomainEntry, w.txt.Keys) + Image(StoredEntry, w.values.Keys)
  }

  lemma {:induction false} ImageFits<A(!new), B>(f: A -> B, items: set<A>)
    ensures |Image(f, items)| <= |items|
    decreases items
  {
    if items != {} {
      var x :| x in items;
      ImageFits(f, items - {x});
      assert Image(f, items) == Image(f, items - {x}) + {f(x)};
    }
  }

  function Enough(w: World): nat {
    2 * |w.txt| + |w.values|
  }

  lemma {:induction false} EntriesFit(w: World)
    ensures |Entries(w)| <= Enough(w)
  {
    hide Image;
    ImageFits(DomainEntry, w.txt.Keys);
    ImageFits(SubdomainEntry, w.txt.Keys);
    ImageFits(StoredEntry, w.values.Keys);
    UnionFits(Image(DomainEntry, w.txt.Keys), Image(SubdomainEntry, w.txt.Keys));
    UnionFits(Image(DomainEntry, w.txt.Keys) + Image(SubdomainEntry, w.txt.Keys), Image(StoredEntry, w.values.Keys));
  }

  lemma UnionFits<T>(a: set<T>, b: set<T>)
    ensures |a + b| <= |a| + |b|
  {
    assert a + b == a + (b - a);
  }

  lemma {:induction false} KeyParts(k: string)
    requires "/pk/" <= k
    ensures |Split(k, '/')| > 1 && Split(k, '/')[1] == "pk"
  {
    var rest := k[4..];
    assert k == "" + ['/'] + ("pk" + ['/'] + rest);
    SplitConcat("", "pk" + ['/'] + rest, '/');
    SplitConcat("pk", rest, '/');
    SplitOne("pk", '/');
  }

  lemma {:induction false} IprsPathIsNoKey(lib: Lib, k: string)
    requires FromString(lib, k).Ok?
    ensures !("/pk/" <= k)
  {
    if "/pk/" <= k {
      KeyParts(k);
    }
  }

  lemma {:induction false} FoundHasEntry(lib: Lib, w: World, key: Key)
    requires GetValue(lib, w, key).Ok?
    ensures EntryOf(lib, key) in Entries(w)
  {
    hide FromString, Split;
    match key.kind
    case Dns =>
      if DNSLINK + key.text in w.txt {
        assert SubdomainEntry(DNSLINK + key.text) == key;
      } else {
        assert key.text in w.txt.Keys && DomainEntry(key.text) == key;
      }
    case Iprs =>
      IprsPathIsNoKey(lib, key.text);
      assert key.text in w.values.Keys && StoredEntry(key.text) == key;
    case Ipns =>
      var c := lib.cidDecode(Split(key.text, '/')[2]).value;
      var at := "/pk/" + lib.cidBytes(c);
      assert at in w.values.Keys && StoredEntry(at) == Key(Ipns, at);
  }

  lemma {:induction false} EntriesCover(lib: Lib, w: World)
    requires CidLaws(lib)
    ensures Respects(Names(lib, w), EntriesOf(lib)) && Covers(Names(lib, w), EntriesOf(lib), Entries(w))
  {
    hide EntryOf, GetValue, Entries, CidLaws;
    forall a: Key, b: Key | EntryOf(lib, a) == EntryOf(lib, b) ensures Names(lib, w)(a) == Names(lib, w)(b) {
      EntriesDecide(lib, w, a, b);
    }
    forall key: Key | Names(lib, w)(key).Ok? ensures EntryOf(lib, key) in Entries(w) {
      FoundHasEntry(lib, w, key);
    }
  }

  /** In a world with T names with TXT records and V stored values, a name that resolves at
      any depth resolves the same at depth 2T + V and beyond, and every answer other than the
      recursion limit is the answer one hop further. A name still at the limit there is on a
      cycle and never leaves it. */
  lemma {:induction false} WorldBoundsDepth(lib: Lib, w: World, p: string, depth: nat)
    requires CidLaws(lib)
    ensures var answer := Resolve(lib, Names(lib, w), p, depth);
      && (answer.Resolved? ==> Resolve(lib, Names(lib, w), p, Enough(w)) == answer)
      && (answer != RecursionLimit ==> Resolve(lib, Names(lib, w), p, Enough(w) + 1) == answer)
  {
    hide *;
    EntriesCover(lib, w);
    EntriesFit(w);
    EnoughDepth(lib, Names(lib, w), EntriesOf(lib), Entries(w), Enough(w), p, depth);
  }
}
