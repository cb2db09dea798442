/** The key store: tables of keys under integer indices, saved to and loaded from a key file. */
module KeyStore {
  import opened Text
  import opened Wrappers

  // ---- placing a key --------------------------------------------------------------------

  /** The indices of a table that the search has not passed yet. */
  ghost function Ahead<K>(t: map<int, K>, i: int): set<int> {
    set k | k in t && k >= i
  }

  /** The least index from `i` on that is not used. */
  ghost function FreeFrom<K>(t: map<int, K>, i: nat): (free: nat)
    ensures free >= i && free !in t && forall k :: i <= k < free ==> k in t
    decreases |Ahead(t, i)|
  {
    if i in t then
      AheadShrinks(t, i);
      FreeFrom(t, i + 1)
    else i
  }

  lemma AheadShrinks<K>(t: map<int, K>, i: int)
    requires i in t
    ensures |Ahead(t, i + 1)| < |Ahead(t, i)|
  {
    assert Ahead(t, i) == Ahead(t, i + 1) + {i};
  }

  /** The index -1 asks for the least free natural number; any other is taken as it is. */
  ghost function PlaceOf<K>(t: map<int, K>, index: int): (place: int)
    ensures index == -1 ==> place >= 0 && place !in t && forall k :: 0 <= k < place ==> k in t
    ensures index != -1 ==> place == index
    ensures place != -1
  {
    if index == -1 then FreeFrom(t, 0) else index
  }

  ghost function Placed<K>(t: map<int, K>, key: K, index: int): map<int, K> {
    t[PlaceOf(t, index) := key]
  }

  // ---- keys as text ---------------------------------------------------------------------

  datatype AesFields = AesFields(keylen: nat, key: seq<Byte>)

  /** The bytes of a key are the part of its array that its length in bits says is used. */
  type AesKey = k: AesFields | |k.key| == k.keylen / 8 witness AesFields(0, [])

  datatype RsaKey<R> = RsaKey(keylen: int, rsa: R)

  /** What the text of a key file entry amounts to: a key, nothing, or a failed assertion. */
  datatype Parsed<+K> = Found(key: K) | Skipped | Aborted

  /** How keys of one kind are written and read. */
  datatype Codec<!K> = Codec(show: K -> string, read: string -> Parsed<K>)

  function ShowAes(k: AesKey): string {
    Join([Print(k.keylen), Encode(k.key)])
  }

  function ReadAes(text: string): Parsed<AesKey> {
    var list := Split(text);
    if |list| != 2 then Skipped
    else
      var keylen, bits := Read(list[0]), Decode(list[1]);
      if keylen != 8 * |bits| then Aborted else Found(AesFields(keylen, bits))
  }

  /** OpenSSL's encoding of a private key, and its inverse; decoding may fail. */
  datatype Der<!R> = Der(encode: R -> seq<Byte>, decode: seq<Byte> -> Option<R>)

  function ShowRsa<R>(der: Der<R>, k: RsaKey<R>): string {
    Join([Print(k.keylen), Encode(der.encode(k.rsa))])
  }

  function ReadRsa<R>(der: Der<R>, text: string): Parsed<RsaKey<R>> {
    var list := Split(text);
    if |list| != 2 then Skipped
    else
      var rsa := der.decode(Decode(list[1]));
      if rsa.Some? then Found(RsaKey(Read(list[0]), rsa.value)) else Skipped
  }

  function AesCodec(): Codec<AesKey> {
    Codec(ShowAes, ReadAes)
  }

  function RsaCodec<R>(der: Der<R>): Codec<RsaKey<R>> {
    Codec((k: RsaKey<R>) => ShowRsa(der, k), (text: string) => ReadRsa(der, text))
  }

  /** A key that reads back as itself. */
  predicate ReadsBack<K(==)>(codec: Codec<K>, k: K) {
    codec.read(codec.show(k)) == Found(k)
  }

  lemma TextOfTwo(n: int, bytes: seq<Byte>)
    ensures Split(Join([Print(n), Encode(bytes)])) == [Print(n), Encode(bytes)]
    ensures Read(Print(n)) == n && Decode(Encode(bytes)) == bytes
  {
    SplitOfJoin([Print(n), Encode(bytes)]);
    ReadOfPrint(n);
    DecodeOfEncode(bytes);
  }

  /** What is written for a key: its length and its bytes, each followed by the separator. */
  lemma KeyTexts<R>(der: Der<R>, a: AesKey, r: RsaKey<R>)
    ensures ShowAes(a) == Print(a.keylen) + ";" + Encode(a.key) + ";"
    ensures ShowRsa(der, r) == Print(r.keylen) + ";" + Encode(der.encode(r.rsa)) + ";"
  {
    JoinOfTwo(Print(a.keylen), Encode(a.key));
    JoinOfTwo(Print(r.keylen), Encode(der.encode(r.rsa)));
  }

  lemma JoinOfTwo(a: string, b: string)
    ensures Join([a, b]) == a + ";" + b + ";"
  {
    hide Join;
    JoinFirst(a, [b]);
    JoinFirst(b, []);
    assert [a] + [b] == [a, b] && [b] + [] == [b];
    JoinOfNone();
  }

  /** What is read from a text of two strings, whether or not the last separator is there, and from any other. */
  lemma TextsAreRead<R>(der: Der<R>, a: string, b: string, text: string)
    requires Plain(a) && Plain(b)
    ensures text == a + ";" + b + ";" || (text == a + ";" + b && b != []) <==> Split(text) == [a, b]
    ensures Split(text) == [a, b] ==>
              ReadAes(text) == if Read(a) == 8 * |Decode(b)| then Found(AesFields(Read(a), Decode(b))) else Aborted
    ensures Split(text) == [a, b] ==>
              ReadRsa(der, text) == match der.decode(Decode(b)) case Some(rsa) => Found(RsaKey(Read(a), rsa)) case None => Skipped
    ensures |Split(text)| != 2 ==> ReadAes(text) == Skipped && ReadRsa(der, text) == Skipped
  {
    hide Split, Join, Read, Decode;
    SplitOfTwo(a, b, text);
  }

  lemma SplitOfTwo(a: string, b: string, text: string)
    requires Plain(a) && Plain(b)
    ensures text == a + ";" + b + ";" || (text == a + ";" + b && b != []) <==> Split(text) == [a, b]
  {
    hide Split, Join;
    var whole := a + ";" + b;
    assert b == [] ==> whole[|whole| - 1] == ';';
    SplitOfPiece(a, b + ";");
    SplitOfPiece(b, []);
    SplitOfPiece(a, b);
    SplitOfLast(b);
    SplitOfLast([]);
    assert b + [';'] + [] == b + ";" && a + [';'] + (b + ";") == whole + ";" && [a] + [b] == [a, b];
    if Split(text) == [a, b] {
      JoinOfSplit(text);
      JoinOfTwo(a, b);
      if text != whole + ";" {
        assert text == (text + [';'])[..|text|] == (whole + ";")[..|whole|] == whole;
      }
    }
  }

  lemma {:induction false} SplitOfLast(b: string)
    requires Plain(b)
    ensures Split(b) == if b == [] then [] else [b]
  {
    if |b| > 1 {
      SplitOfLast(b[1..]);
      assert [b[0]] + b[1..] == b;
    }
  }

  /** An AES key reads back exactly when its length is a whole number of bytes; otherwise reading it aborts. */
  lemma AesReadsBack(k: AesKey)
    ensures ReadsBack(AesCodec(), k) <==> k.keylen % 8 == 0
    ensures ReadAes(ShowAes(k)) == Aborted <==> k.keylen % 8 != 0
  {
    TextOfTwo(k.keylen, k.key);
  }

  /** An RSA key reads back exactly when its DER encoding decodes to it. */
  lemma RsaReadsBack<R>(der: Der<R>, k: RsaKey<R>)
    ensures ReadsBack(RsaCodec(der), k) <==> der.decode(der.encode(k.rsa)) == Some(k.rsa)
  {
    TextOfTwo(k.keylen, der.encode(k.rsa));
  }

  // ---- a group of the key file ----------------------------------------------------------

  datatype Entry = Entry(name: string, text: string)

  ghost predicate Distinct(order: seq<int>) {
    forall i, k :: 0 <= i < k < |order| ==> order[i] != order[k]
  }

  /** A table is written in some order of its indices, each once. */
  ghost predicate IsOrder<K>(order: seq<int>, t: map<int, K>) {
    && Distinct(order)
    && (forall i :: 0 <= i < |order| ==> order[i] in t)
    && (forall x :: x in t ==> x in order)
  }

  /** The entry of one key. */
  function EntryFor<K>(codec: Codec<K>, t: map<int, K>, x: int): Entry
    requires x in t
  {
    Entry(Print(x), codec.show(t[x]))
  }

  /** Sets the text under a name: in place if there is an entry, at the end otherwise. */
  function SetEntry(group: seq<Entry>, e: Entry): seq<Entry> {
    if group == [] then [e]
    else if group[0].name == e.name then [e] + group[1..]
    else [group[0]] + SetEntry(group[1..], e)
  }

  ghost function Saved<K>(codec: Codec<K>, t: map<int, K>, order: seq<int>): (group: seq<Entry>)
    requires forall i :: 0 <= i < |order| ==> order[i] in t
  {
    if order == [] then [] else
      var x := order[|order| - 1];
      SetEntry(Saved(codec, t, order[..|order| - 1]), EntryFor(codec, t, x))
  }

  /** A table being loaded, or the program having aborted. */
  datatype Loading<K> = Table(t: map<int, K>) | Stopped

  ghost function LoadEntry<K>(codec: Codec<K>, l: Loading<K>, e: Entry): Loading<K> {
    if l.Stopped? then l
    else
      var parsed := codec.read(e.text);
      match parsed
      case Found(key) => Table(Placed(l.t, key, Read(e.name)))
      case Skipped => l
      case Aborted => Stopped
  }

  ghost function Loaded<K>(codec: Codec<K>, l: Loading<K>, group: seq<Entry>): Loading<K> {
    if group == [] then l else LoadEntry(codec, Loaded(codec, l, group[..|group| - 1]), group[|group| - 1])
  }

  // ---- saving and loading ---------------------------------------------------------------

  lemma {:induction false} SetNewEntry(group: seq<Entry>, e: Entry)
    requires forall i :: 0 <= i < |group| ==> group[i].name != e.name
    ensures SetEntry(group, e) == group + [e]
  {
    if group != [] {
      SetNewEntry(group[1..], e);
    }
  }

  lemma DistinctNames(x: int, y: int)
    requires x != y
    ensures Print(x) != Print(y)
  {
    ReadOfPrint(x);
    ReadOfPrint(y);
  }

  /** Distinct indices have distinct names, so saving appends one entry for each. */
  lemma {:induction false} SavedEntries<K>(codec: Codec<K>, t: map<int, K>, order: seq<int>)
    requires Distinct(order) && forall i :: 0 <= i < |order| ==> order[i] in t
    ensures |Saved(codec, t, order)| == |order|
    ensures forall i :: 0 <= i < |order| ==> Saved(codec, t, order)[i] == EntryFor(codec, t, order[i])
  {
    hide Print, SetEntry;
    if order != [] {
      var front, x := order[..|order| - 1], order[|order| - 1];
      var before := Saved(codec, t, front);
      SavedEntries(codec, t, front);
      forall i | 0 <= i < |before| ensures before[i].name != Print(x) {
        assert before[i] == EntryFor(codec, t, front[i]);
        DistinctNames(front[i], x);
      }
      SetNewEntry(before, EntryFor(codec, t, x));
    }
  }

  ghost function Part<K>(t: map<int, K>, order: seq<int>): map<int, K>
    requires forall i :: 0 <= i < |order| ==> order[i] in t
  {
    map x | x in order :: t[x]
  }

  lemma PartOfMore<K>(t: map<int, K>, order: seq<int>)
    requires order != [] && forall i :: 0 <= i < |order| ==> order[i] in t
    ensures var x := order[|order| - 1];
            x in t && Part(t, order) == Part(t, order[..|order| - 1])[x := t[x]]
  {
    assert order == order[..|order| - 1] + [order[|order| - 1]];
  }

  lemma LoadOwnEntry<K>(codec: Codec<K>, t: map<int, K>, x: int, loaded: map<int, K>)
    requires x in t && x != -1 && ReadsBack(codec, t[x])
    ensures LoadEntry(codec, Table(loaded), EntryFor(codec, t, x)) == Table(loaded[x := t[x]])
  {
    hide Print, Read, FreeFrom;
    ReadOfPrint(x);
  }

  lemma SavedFront<K>(codec: Codec<K>, t: map<int, K>, order: seq<int>)
    requires order != [] && Distinct(order) && forall i :: 0 <= i < |order| ==> order[i] in t
    ensures var n := |order| - 1;
            Saved(codec, t, order) == Saved(codec, t, order[..n]) + [EntryFor(codec, t, order[n])]
  {
    hide Print, SetEntry, Saved;
    SavedEntries(codec, t, order);
    SavedEntries(codec, t, order[..|order| - 1]);
  }

  lemma {:induction false} LoadOfSaved<K>(codec: Codec<K>, t: map<int, K>, order: seq<int>)
    requires Distinct(order) && forall i :: 0 <= i < |order| ==> order[i] in t
    requires forall i :: 0 <= i < |order| ==> order[i] != -1 && ReadsBack(codec, t[order[i]])
    ensures Loaded(codec, Table(map[]), Saved(codec, t, order)) == Table(Part(t, order))
  {
    hide Saved, LoadEntry, EntryFor, Part;
    if order == [] {
      NothingSaved(codec, t);
    } else {
      var n := |order| - 1;
      LoadOfSaved(codec, t, order[..n]);
      SavedFront(codec, t, order);
      PartOfMore(t, order);
      LoadOwnEntry(codec, t, order[n], Part(t, order[..n]));
    }
  }

  lemma NothingSaved<K>(codec: Codec<K>, t: map<int, K>)
    ensures Saved(codec, t, []) == [] && Part(t, []) == map[]
  {}

  /** Loading stops exactly when some entry fails the assertion. */
  lemma {:induction false} LoadingStops<K>(codec: Codec<K>, l: Loading<K>, group: seq<Entry>)
    requires l.Table?
    ensures Loaded(codec, l, group).Stopped? <==> exists i :: 0 <= i < |group| && codec.read(group[i].text).Aborted?
  {
    hide Placed;
    if group != [] {
      var n := |group| - 1;
      LoadingStops(codec, l, group[..n]);
      forall i | 0 <= i < n ensures group[..n][i] == group[i] {}
      if Loaded(codec, l, group[..n]).Stopped? {
        var i :| 0 <= i < n && codec.read(group[..n][i].text).Aborted?;
        assert codec.read(group[i].text).Aborted?;
      } else if i :| 0 <= i < |group| && codec.read(group[i].text).Aborted? {
        assert i == n || codec.read(group[..n][i].text).Aborted?;
      }
    }
  }

  /** The last key that a group has for an index. */
  function LastKey<K>(codec: Codec<K>, group: seq<Entry>, x: int): Option<K> {
    if group == [] then None else
      var e := group[|group| - 1];
      if Read(e.name) == x && codec.read(e.text).Found? then Some(codec.read(e.text).key)
      else LastKey(codec, group[..|group| - 1], x)
  }

  /** Loading a group that names its indices: the last readable entry for an index wins, over earlier entries and
      over what the table had, and the other indices keep what they had. */
  lemma {:induction false} LastEntryWins<K>(codec: Codec<K>, t: map<int, K>, group: seq<Entry>, x: int)
    requires Loaded(codec, Table(t), group).Table?
    requires forall i :: 0 <= i < |group| ==> Read(group[i].name) != -1
    ensures var loaded, last := Loaded(codec, Table(t), group).t, LastKey(codec, group, x);
            && (last.Some? ==> x in loaded && loaded[x] == last.value)
            && (last == None ==> (x in loaded <==> x in t) && (x in t ==> loaded[x] == t[x]))
  {
    hide Read, FreeFrom;
    if group != [] {
      assert forall i :: 0 <= i < |group| - 1 ==> group[..|group| - 1][i] == group[i];
      LastEntryWins(codec, t, group[..|group| - 1], x);
    }
  }

  lemma {:induction false} LoadingAvoidsMinusOne<K>(codec: Codec<K>, l: Loading<K>, group: seq<Entry>)
    requires l.Table? ==> -1 !in l.t
    ensures Loaded(codec, l, group).Table? ==> -1 !in Loaded(codec, l, group).t
  {
    if group != [] {
      LoadingAvoidsMinusOne(codec, l, group[..|group| - 1]);
    }
  }

  /** The round trip: a table of readable keys, saved in any order and loaded into an empty one, comes back
      exactly when -1 is not one of its indices. */
  lemma SaveThenLoad<K>(codec: Codec<K>, t: map<int, K>, order: seq<int>)
    requires IsOrder(order, t) && forall x :: x in t ==> ReadsBack(codec, t[x])
    ensures Loaded(codec, Table(map[]), Saved(codec, t, order)) == Table(t) <==> -1 !in t
  {
    if -1 in t {
      LoadingAvoidsMinusOne(codec, Table(map[]), Saved(codec, t, order));
    } else {
      forall i | 0 <= i < |order| ensures order[i] != -1 && ReadsBack(codec, t[order[i]]) {
        var x := order[i];
        assert x in t;
      }
      LoadOfSaved(codec, t, order);
      forall x ensures x in Part(t, order) <==> x in t {
        assert x in order ==> x in t;
      }
      assert Part(t, order) == t;
    }
  }

  // ---- reachable tables -----------------------------------------------------------------

  /** What happens to a table: a key is created, or a group of a key file is loaded. */
  datatype Op<K> = Create(key: K, index: int) | LoadGroup(group: seq<Entry>)

  ghost function Apply<K>(codec: Codec<K>, l: Loading<K>, op: Op<K>): Loading<K> {
    match op
    case Create(key, index) => if l.Table? then Table(Placed(l.t, key, index)) else l
    case LoadGroup(group) => Loaded(codec, l, group)
  }

  ghost function After<K>(codec: Codec<K>, ops: seq<Op<K>>): Loading<K> {
    if ops == [] then Table(map[]) else Apply(codec, After(codec, ops[..|ops| - 1]), ops[|ops| - 1])
  }

  /** Whatever is read from a text would read back, and so would every key created. */
  ghost predicate Honest<K>(codec: Codec<K>, ops: seq<Op<K>>) {
    && (forall text :: codec.read(text).Found? ==> ReadsBack(codec, codec.read(text).key))
    && (forall i :: 0 <= i < |ops| && ops[i].Create? ==> ReadsBack(codec, ops[i].key))
  }

  ghost predicate Sane<K>(codec: Codec<K>, l: Loading<K>) {
    l.Table? ==> -1 !in l.t && forall x :: x in l.t ==> ReadsBack(codec, l.t[x])
  }

  lemma {:induction false} LoadingStaysSane<K>(codec: Codec<K>, l: Loading<K>, group: seq<Entry>)
    requires Sane(codec, l) && Honest(codec, [])
    ensures Sane(codec, Loaded(codec, l, group))
  {
    hide Read, FreeFrom;
    if group != [] {
      LoadingStaysSane(codec, l, group[..|group| - 1]);
    }
  }

  lemma PlacingStaysSane<K>(codec: Codec<K>, t: map<int, K>, key: K, index: int)
    requires Sane(codec, Table(t)) && ReadsBack(codec, key)
    ensures Sane(codec, Table(Placed(t, key, index)))
  {
    hide ReadsBack, FreeFrom;
  }

  /** No operation ever stores a key at -1. */
  lemma {:induction false} ReachableIsSane<K>(codec: Codec<K>, ops: seq<Op<K>>)
    requires Honest(codec, ops)
    ensures Sane(codec, After(codec, ops))
  {
    hide FreeFrom;
    if ops != [] {
      var op := ops[|ops| - 1];
      ReachableIsSane(codec, ops[..|ops| - 1]);
      if op.LoadGroup? {
        LoadingStaysSane(codec, After(codec, ops[..|ops| - 1]), op.group);
      }
    }
  }

  /** Whatever was created and loaded before, what is saved on closing is what the next opening finds. */
  lemma ReachableRoundTrip<K>(codec: Codec<K>, ops: seq<Op<K>>, order: seq<int>)
    requires Honest(codec, ops)
    requires After(codec, ops).Table? && IsOrder(order, After(codec, ops).t)
    ensures Loaded(codec, Table(map[]), Saved(codec, After(codec, ops).t, order)) == After(codec, ops)
  {
    ReachableIsSane(codec, ops);
    SaveThenLoad(codec, After(codec, ops).t, order);
  }

  /** The table of AES keys: keys are created with 128 or 256 random bits. */
  lemma AesRoundTrip(ops: seq<Op<AesKey>>, order: seq<int>)
    requires forall i :: 0 <= i < |ops| && ops[i].Create? ==> ops[i].key.keylen in {128, 256}
    requires After(AesCodec(), ops).Table? && IsOrder(order, After(AesCodec(), ops).t)
    ensures -1 !in After(AesCodec(), ops).t
    ensures Loaded(AesCodec(), Table(map[]), Saved(AesCodec(), After(AesCodec(), ops).t, order))
         == After(AesCodec(), ops)
  {
    AesIsHonest(ops);
    ReachableIsSane(AesCodec(), ops);
    ReachableRoundTrip(AesCodec(), ops, order);
  }

  lemma AesIsHonest(ops: seq<Op<AesKey>>)
    requires forall i :: 0 <= i < |ops| && ops[i].Create? ==> ops[i].key.keylen % 8 == 0
    ensures Honest(AesCodec(), ops)
  {
    hide Split, Join, Print, Read, Decode, Encode;
    forall text | AesCodec().read(text).Found?
      ensures ReadsBack(AesCodec(), AesCodec().read(text).key)
    {
      AesReadsBack(AesCodec().read(text).key);
    }
    forall i | 0 <= i < |ops| && ops[i].Create? ensures ReadsBack(AesCodec(), ops[i].key) {
      AesReadsBack(ops[i].key);
    }
  }

  /** Decoding undoes encoding. */
  ghost predicate Inverse<R(!new)>(der: Der<R>) {
    forall r: R :: der.decode(der.encode(r)) == Some(r)
  }

  /** The table of RSA keys, given that decoding a DER encoding is its inverse. */
  lemma RsaRoundTrip<R(!new)>(der: Der<R>, ops: seq<Op<RsaKey<R>>>, order: seq<int>)
    requires Inverse(der)
    requires After(RsaCodec(der), ops).Table? && IsOrder(order, After(RsaCodec(der), ops).t)
    ensures -1 !in After(RsaCodec(der), ops).t
    ensures Loaded(RsaCodec(der), Table(map[]), Saved(RsaCodec(der), After(RsaCodec(der), ops).t, order))
         == After(RsaCodec(der), ops)
  {
    forall k: RsaKey<R> ensures ReadsBack(RsaCodec(der), k) {
      RsaReadsBack(der, k);
    }
    ReachableIsSane(RsaCodec(der), ops);
    ReachableRoundTrip(RsaCodec(der), ops, order);
  }

  // ---- the store ------------------------------------------------------------------------

  lemma EmptyOrNot(s: set<int>)
    ensures s == {} || exists x :: x in s
  {
    assert (forall x :: x !in s) ==> s == {};
  }

  class KeyTable<K> {
    var entries: map<int, K>

    constructor ()
      ensures entries == map[]
    {
      entries := map[];
    }

    method Lookup(index: int) returns (key: Option<K>)
      ensures key == if index in entries then Some(entries[index]) else None
    {
      key := if index in entries then Some(entries[index]) else None;
    }

    /** Stores a key at an index, or at the first free one; returns where. */
    method Replace(key: K, index: int) returns (placed: int)
      modifies this
      ensures placed == PlaceOf(old(entries), index)
      ensures entries == old(entries)[placed := key]
    {
      placed := index;
      if placed == -1 {
        var i := 0;
        while i in entries
          invariant entries == old(entries)
          invariant 0 <= i && FreeFrom(entries, 0) == FreeFrom(entries, i)
          decreases |Ahead(entries, i)|
        {
          AheadShrinks(entries, i);
          i := i + 1;
        }
        placed := i;
      }
      entries := entries[placed := key];
    }

    /** Writes every entry, in whatever order the table is walked; `order` says which. */
    method Save(codec: Codec<K>) returns (group: seq<Entry>, order: seq<int>)
      ensures IsOrder(order, entries) && group == Saved(codec, entries, order) && |group| == |order|
      ensures forall i :: 0 <= i < |order| ==> group[i] == Entry(Print(order[i]), codec.show(entries[order[i]]))
    {
      hide Print, SetEntry;
      group, order := [], [];
      var todo := entries.Keys;
      while todo != {}
        invariant todo <= entries.Keys && Distinct(order)
        invariant forall i :: 0 <= i < |order| ==> order[i] in entries && order[i] !in todo
        invariant forall x :: x in entries ==> x in order || x in todo
        invariant group == Saved(codec, entries, order)
        decreases todo
      {
        EmptyOrNot(todo);
        var x :| x in todo;
        group := SetEntry(group, EntryFor(codec, entries, x));
        todo := todo - {x};
        order := order + [x];
        assert order[..|order| - 1] + [x] == order;
      }
      SavedEntries(codec, entries, order);
    }

    /** Reads every entry of a group, in file order; stops at a failed assertion. */
    method Load(codec: Codec<K>, group: seq<Entry>) returns (ok: bool)
      modifies this
      ensures ok <==> Loaded(codec, Table(old(entries)), group).Table?
      ensures ok ==> Table(entries) == Loaded(codec, Table(old(entries)), group)
    {
      hide Read, FreeFrom;
      ghost var start := entries;
      ok := true;
      for i := 0 to |group|
        invariant Table(entries) == Loaded(codec, Table(start), group[..i])
      {
        assert group[..i + 1][..i] == group[..i];
        var parsed := codec.read(group[i].text);
        match parsed {
          case Found(key) =>
            var placed := Replace(key, Read(group[i].name));
          case Skipped =>
          case Aborted =>
            LoadingStopped(codec, Table(start), group, i + 1);
            return false;
        }
      }
      assert group[..|group|] == group;
    }
  }

  lemma {:induction false} LoadingStopped<K>(codec: Codec<K>, l: Loading<K>, group: seq<Entry>, k: nat)
    requires k <= |group| && Loaded(codec, l, group[..k]).Stopped?
    ensures Loaded(codec, l, group).Stopped?
  {
    if k == |group| {
      assert group[..k] == group;
    } else {
      assert group[..|group| - 1][..k] == group[..k];
      LoadingStopped(codec, l, group[..|group| - 1], k);
    }
  }

  datatype KeyFile = KeyFile(aes: seq<Entry>, rsa: seq<Entry>)

  /** What there is under the path of the key file. */
  datatype FileState = Missing | Unreadable | Readable(file: KeyFile)

  datatype LoadOutcome = NoError | GenericError | AssertionFailed

  class Store<!R(!new)> {
    const der: Der<R>
    const aes: KeyTable<AesKey>
    const rsa: KeyTable<RsaKey<R>>

    /** No key is at -1, and every AES key would be read back from a key file. */
    ghost predicate Valid()
      reads aes, rsa
    {
      Sane(AesCodec(), Table(aes.entries)) && -1 !in rsa.entries
    }

    constructor (der: Der<R>)
      ensures Valid() && this.der == der && fresh(aes) && fresh(rsa)
      ensures aes.entries == map[] && rsa.entries == map[]
    {
      this.der := der;
      aes := new KeyTable();
      rsa := new KeyTable();
    }

    /** Creates an AES key from random bytes, if they could be had; returns where it is, or None. */
    method GenerateAes(keylen: int, random: Option<seq<Byte>>, index: int) returns (placed: Option<int>)
      requires Valid()
      requires random.Some? && (keylen == 128 || keylen == 256) ==> |random.value| == keylen / 8
      modifies aes
      ensures Valid()
      ensures placed.Some? <==> (keylen == 128 || keylen == 256) && random.Some?
      ensures placed.Some? ==> placed.value == PlaceOf(old(aes.entries), index)
      ensures aes.entries == if placed.Some? then Placed(old(aes.entries), AesFields(keylen, random.value), index)
                             else old(aes.entries)
    {
      hide Sane, ReadsBack, PlaceOf, AesCodec;
      if !(keylen == 128 || keylen == 256) || random == None {
        return None;
      }
      var key: AesKey := AesFields(keylen, random.value);
      AesReadsBack(key);
      PlacingStaysSane(AesCodec(), aes.entries, key, index);
      var at := aes.Replace(key, index);
      placed := Some(at);
    }

    /** Creates an RSA key, unless that fails; returns where it is, or None. */
    method GenerateRsa(keylen: int, generated: Option<R>, index: int) returns (placed: Option<int>)
      requires Valid()
      modifies rsa
      ensures Valid()
      ensures placed.Some? <==> (keylen == 2048 || keylen == 4096) && generated.Some?
      ensures placed.Some? ==> placed.value == PlaceOf(old(rsa.entries), index)
      ensures rsa.entries == if placed.Some? then Placed(old(rsa.entries), RsaKey(keylen, generated.value), index)
                             else old(rsa.entries)
    {
      if !(keylen == 2048 || keylen == 4096) || generated.None? {
        return None;
      }
      var at := rsa.Replace(RsaKey(keylen, generated.value), index);
      placed := Some(at);
    }

    method Save() returns (file: KeyFile, aesOrder: seq<int>, rsaOrder: seq<int>)
      ensures IsOrder(aesOrder, aes.entries) && file.aes == Saved(AesCodec(), aes.entries, aesOrder)
      ensures IsOrder(rsaOrder, rsa.entries) && file.rsa == Saved(RsaCodec(der), rsa.entries, rsaOrder)
    {
      var a, r;
      a, aesOrder := aes.Save(AesCodec());
      r, rsaOrder := rsa.Save(RsaCodec(der));
      file := KeyFile(a, r);
    }

    /** Loads a key file; a missing one is no error. */
    method Load(state: FileState) returns (outcome: LoadOutcome)
      requires Valid()
      modifies aes, rsa
      ensures outcome != AssertionFailed ==> Valid()
      ensures state.Missing? ==>
        outcome == NoError && aes.entries == old(aes.entries) && rsa.entries == old(rsa.entries)
      ensures state.Unreadable? ==>
        outcome == GenericError && aes.entries == old(aes.entries) && rsa.entries == old(rsa.entries)
      ensures state.Readable? ==>
        (outcome == NoError && Table(aes.entries) == Loaded(AesCodec(), Table(old(aes.entries)), state.file.aes)
                            && Table(rsa.entries) == Loaded(RsaCodec(der), Table(old(rsa.entries)), state.file.rsa))
        || (outcome == AssertionFailed && Loaded(AesCodec(), Table(old(aes.entries)), state.file.aes) == Stopped)
    {
      hide ReadsBack;
      match state {
        case Missing => return NoError;
        case Unreadable => return GenericError;
        case Readable(file) =>
          RsaNeverStops(der, Table(rsa.entries), file.rsa);
          LoadingAvoidsMinusOne(RsaCodec(der), Table(rsa.entries), file.rsa);
          AesIsHonest([]);
          LoadingStaysSane(AesCodec(), Table(aes.entries), file.aes);
          var ok := aes.Load(AesCodec(), file.aes);
          if !ok {
            return AssertionFailed;
          }
          ok := rsa.Load(RsaCodec(der), file.rsa);
          return NoError;
      }
    }

    /** Closing and opening again restores a store, given that decoding a DER encoding is its inverse. */
    method SaveAndReopen() returns (reopened: Store<R>, outcome: LoadOutcome)
      requires Valid() && Inverse(der)
      ensures fresh(reopened) && fresh(reopened.aes) && fresh(reopened.rsa)
      ensures outcome == NoError && reopened.Valid() && reopened.der == der
      ensures reopened.aes.entries == aes.entries && reopened.rsa.entries == rsa.entries
    {
      var file, aesOrder, rsaOrder := Save();
      forall x | x in rsa.entries ensures ReadsBack(RsaCodec(der), rsa.entries[x]) {
        RsaReadsBack(der, rsa.entries[x]);
      }
      SaveThenLoad(AesCodec(), aes.entries, aesOrder);
      SaveThenLoad(RsaCodec(der), rsa.entries, rsaOrder);
      reopened := new Store(der);
      outcome := reopened.Load(FileState.Readable(file));
    }
  }

  /** A damaged RSA entry is passed over; only the AES loader asserts. */
  lemma {:induction false} RsaNeverStops<R>(der: Der<R>, l: Loading<RsaKey<R>>, group: seq<Entry>)
    requires l.Table?
    ensures Loaded(RsaCodec(der), l, group).Table?
  {
    if group != [] {
      RsaNeverStops(der, l, group[..|group| - 1]);
    }
  }
}
