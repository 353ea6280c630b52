/** The bottom hub's window groups: one key a window, groups in order of first appearance. */
module BottomHubGroups {
  import opened Wrappers
  import opened Unicode
  import opened Decimals
  import opened WhiteSpace
  import opened Sequences

  datatype Window = Window(initialClass: Option<Text>, class_: Option<Text>, address: Option<Text>)

  const NO_WINDOW := Window(None, None, None)

  /** A client object, told apart by its identity, or a value that is not an object. */
  datatype Client = Object(identity: nat, lastIpcObject: Option<Window>) | Primitive

  datatype Entry = Entry(id: Option<Text>)

  /** `String(value ?? "").trim()` */
  function Cleaned(value: Option<Text>): Text { Trim(if value.Some? then value.value else []) }

  function WindowOf(client: Client): Window {
    if client.Object? && client.lastIpcObject.Some? then client.lastIpcObject.value else NO_WINDOW
  }

  function EntryId(entry: Option<Entry>): Text { Cleaned(if entry.Some? then entry.value.id else None) }

  function ClassName(window: Window): Text {
    if Cleaned(window.class_) != [] then Cleaned(window.class_) else Cleaned(window.initialClass)
  }

  /** Nothing but the client object itself identifies the window. */
  predicate Anonymous(client: Client, entry: Option<Entry>) {
    var window := WindowOf(client);
    EntryId(entry) == [] && Cleaned(window.initialClass) == [] && Cleaned(window.class_) == []
      && Cleaned(window.address) == []
  }

  const WINDOW := Ascii("window:")
  const ANONYMOUS := Ascii("window:anonymous:")

  /** The group key, given the numbers handed out to anonymous objects. */
  function KeyOf(lower: Text -> Text, client: Client, entry: Option<Entry>, index: nat, numbers: map<nat, nat>): Text
    requires client.Object? && Anonymous(client, entry) ==> client.identity in numbers
  {
    var window := WindowOf(client);
    var identity := if Cleaned(window.initialClass) != [] then Cleaned(window.initialClass) else Cleaned(window.class_);
    if EntryId(entry) != [] then EntryId(entry)
    else if identity != [] then lower(identity)
    else if Cleaned(window.address) != [] then WINDOW + Cleaned(window.address)
    else if client.Object? then ANONYMOUS + Digits(numbers[client.identity])
    else WINDOW + Digits(index)
  }

  /** The anonymous objects among the clients have their numbers. */
  ghost predicate Numbered(clients: seq<Client>, resolve: Client -> Option<Entry>, numbers: map<nat, nat>) {
    forall i :: 0 <= i < |clients| && clients[i].Object? && Anonymous(clients[i], resolve(clients[i])) ==>
      clients[i].identity in numbers
  }

  function AnonymousCount(clients: seq<Client>, resolve: Client -> Option<Entry>): nat {
    if clients == [] then 0
    else
      var last := clients[|clients| - 1];
      AnonymousCount(clients[..|clients| - 1], resolve) + if Anonymous(last, resolve(last)) then 1 else 0
  }

  /** The key of every client, in order. */
  function Keys(lower: Text -> Text, clients: seq<Client>, resolve: Client -> Option<Entry>,
                numbers: map<nat, nat>): (keys: seq<Text>)
    requires Numbered(clients, resolve, numbers)
    ensures |keys| == |clients|
  {
    if clients == [] then []
    else
      var n := |clients| - 1;
      Keys(lower, clients[..n], resolve, numbers)
      + [KeyOf(lower, clients[n], resolve(clients[n]), AnonymousCount(clients[..n], resolve), numbers)]
  }

  /** The clients under one key, in their order. */
  function Under(clients: seq<Client>, keys: seq<Text>, key: Text): (windows: seq<Client>)
    requires |keys| == |clients|
    ensures windows == [] <==> key !in keys
  {
    if clients == [] then []
    else
      var n := |clients| - 1;
      assert keys == keys[..n] + [keys[n]];
      Under(clients[..n], keys[..n], key) + if keys[n] == key then [clients[n]] else []
  }

  datatype Group = Group(key: Text, entry: Option<Entry>, className: Text, pinned: bool, windows: seq<Client>)

  /** A group carries the entry and class of its first window. */
  function GroupUnder(clients: seq<Client>, keys: seq<Text>, resolve: Client -> Option<Entry>, key: Text): Group
    requires |keys| == |clients| && key in keys
  {
    var windows := Under(clients, keys, key);
    Group(key, resolve(windows[0]), ClassName(WindowOf(windows[0])), false, windows)
  }

  class WindowNumbers {
    var numbers: map<nat, nat>
    var next: nat

    /** Every number was handed out once. */
    ghost predicate Valid()
      reads this
    {
      && (forall c :: c in numbers ==> 1 <= numbers[c] <= next)
      && (forall c, d :: c in numbers && d in numbers && c != d ==> numbers[c] != numbers[d])
    }

    constructor ()
      ensures Valid() && numbers == map[] && next == 0
    {
      numbers, next := map[], 0;
    }

    /** A number that was handed out stays; only an anonymous object that has none gets the next one. */
    method GroupKeyForWindow(lower: Text -> Text, entry: Option<Entry>, index: nat, client: Client) returns (key: Text)
      requires Valid()
      modifies this
      ensures Valid() && Extends(old(numbers), numbers)
      ensures numbers == if client.Object? && Anonymous(client, entry) && client.identity !in old(numbers)
                         then old(numbers)[client.identity := old(next) + 1] else old(numbers)
      ensures next == old(next) + if numbers == old(numbers) then 0 else 1
      ensures client.Object? && Anonymous(client, entry) ==> client.identity in numbers
      ensures key == KeyOf(lower, client, entry, index, numbers)
    {
      hide Cleaned, Digits, Ascii, EntryId, WindowOf;
      var entryId := EntryId(entry);
      if entryId != [] {
        return entryId;
      }
      var window := WindowOf(client);
      var identity := if Cleaned(window.initialClass) != [] then Cleaned(window.initialClass)
        else Cleaned(window.class_);
      if identity != [] {
        return lower(identity);
      }
      var reportedAddress := Cleaned(window.address);
      if reportedAddress != [] {
        return WINDOW + reportedAddress;
      }
      if client.Object? {
        if client.identity !in numbers {
          next := next + 1;
          numbers := numbers[client.identity := next];
        }
        return ANONYMOUS + Digits(numbers[client.identity]);
      }
      return WINDOW + Digits(index);
    }

    /** Groups the clients by key; the keys are those of the numbers handed out by the end. */
    method GroupWindows(lower: Text -> Text, clients: seq<Client>, resolve: Client -> Option<Entry>)
      returns (order: seq<Text>, groups: map<Text, Group>)
      requires Valid()
      modifies this
      ensures Valid() && Extends(old(numbers), numbers) && Numbered(clients, resolve, numbers)
      ensures Numbered(clients, resolve, old(numbers)) ==> numbers == old(numbers)
      ensures IsGrouping(order, groups, clients, Keys(lower, clients, resolve, numbers), resolve)
    {
      hide Extends, Numbered, IsGrouping, Keys, KeyOf, AnonymousCount, Anonymous, Cleaned, EntryId, WindowOf, ClassName;
      order, groups := [], map[];
      var anonymousWindowIndex := 0;
      NothingGrouped(lower, resolve, numbers);
      assert clients[..0] == [];
      for n := 0 to |clients|
        invariant Valid() && Extends(old(numbers), numbers) && Numbered(clients[..n], resolve, numbers)
        invariant Numbered(clients, resolve, old(numbers)) ==> numbers == old(numbers)
        invariant anonymousWindowIndex == AnonymousCount(clients[..n], resolve)
        invariant IsGrouping(order, groups, clients[..n], Keys(lower, clients[..n], resolve, numbers), resolve)
      {
        var client := clients[n];
        var entry := resolve(client);
        ghost var before, earlier := numbers, clients[..n];
        var key := GroupKeyForWindow(lower, entry, anonymousWindowIndex, client);
        NumbersGrow(old(numbers), before, numbers, earlier, client, resolve);
        KeysGrow(lower, earlier, client, resolve, before, numbers);
        NothingNew(clients, resolve, old(numbers), n);
        assert clients[..n + 1] == earlier + [client];
        if Anonymous(client, entry) {
          anonymousWindowIndex := anonymousWindowIndex + 1;
        }
        GroupingGrows(order, groups, earlier, Keys(lower, earlier, resolve, numbers), resolve, client, key);
        var group := if key in groups then groups[key] else Group(key, entry, ClassName(WindowOf(client)), false, []);
        if key !in groups {
          order := order + [key];
        }
        groups := groups[key := group.(windows := group.windows + [client])];
      }
      assert clients[..|clients|] == clients;
    }
  }

  lemma NothingGrouped(lower: Text -> Text, resolve: Client -> Option<Entry>, numbers: map<nat, nat>)
    ensures Extends(numbers, numbers) && Numbered([], resolve, numbers) && AnonymousCount([], resolve) == 0
    ensures IsGrouping([], map[], [], Keys(lower, [], resolve, numbers), resolve)
  {}

  /** A client that needs no new number, because all have theirs. */
  lemma NothingNew(clients: seq<Client>, resolve: Client -> Option<Entry>, numbers: map<nat, nat>, n: nat)
    requires n < |clients|
    ensures Numbered(clients, resolve, numbers) && clients[n].Object? && Anonymous(clients[n], resolve(clients[n])) ==>
              clients[n].identity in numbers
  {}

  /** One more client adds its key and leaves the earlier ones. */
  lemma KeysGrow(lower: Text -> Text, earlier: seq<Client>, client: Client, resolve: Client -> Option<Entry>,
                 before: map<nat, nat>, after: map<nat, nat>)
    requires Numbered(earlier, resolve, before) && Extends(before, after)
             && Numbered(earlier + [client], resolve, after)
    ensures Numbered(earlier, resolve, after)
            && Keys(lower, earlier, resolve, before) == Keys(lower, earlier, resolve, after)
    ensures client.Object? && Anonymous(client, resolve(client)) ==> client.identity in after
    ensures Keys(lower, earlier + [client], resolve, after) ==
            Keys(lower, earlier, resolve, after)
              + [KeyOf(lower, client, resolve(client), AnonymousCount(earlier, resolve), after)]
  {
    hide Anonymous, KeyOf;
    KeysStay(lower, earlier, resolve, before, after);
    assert (earlier + [client])[..|earlier|] == earlier && (earlier + [client])[|earlier|] == client;
  }

  ghost predicate Extends(before: map<nat, nat>, after: map<nat, nat>) {
    forall c :: c in before ==> c in after && after[c] == before[c]
  }

  lemma NumbersGrow(first: map<nat, nat>, before: map<nat, nat>, after: map<nat, nat>,
                    clients: seq<Client>, client: Client, resolve: Client -> Option<Entry>)
    requires Extends(first, before) && Numbered(clients, resolve, before)
    requires Extends(before, after)
    requires client.Object? && Anonymous(client, resolve(client)) ==> client.identity in after
    ensures Extends(first, after) && Numbered(clients + [client], resolve, after)
    ensures AnonymousCount(clients + [client], resolve) ==
            AnonymousCount(clients, resolve) + if Anonymous(client, resolve(client)) then 1 else 0
  {
    assert (clients + [client])[..|clients|] == clients;
  }

  /** A map in insertion order that holds, under each key, the group of its clients. */
  ghost predicate IsGrouping(order: seq<Text>, groups: map<Text, Group>, clients: seq<Client>, keys: seq<Text>,
                             resolve: Client -> Option<Entry>) {
    && |keys| == |clients|
    && order == FirstOccurrences(keys)
    && (forall k :: k in groups <==> k in keys)
    && (forall k :: k in groups ==> groups[k] == GroupUnder(clients, keys, resolve, k))
  }

  /** Handing out more numbers does not change the keys of clients that had theirs. */
  lemma {:induction false} KeysStay(lower: Text -> Text, clients: seq<Client>, resolve: Client -> Option<Entry>,
                                    before: map<nat, nat>, after: map<nat, nat>)
    requires Numbered(clients, resolve, before) && Extends(before, after)
    ensures Numbered(clients, resolve, after)
    ensures Keys(lower, clients, resolve, before) == Keys(lower, clients, resolve, after)
  {
    hide Anonymous;
    if clients == [] {
    } else {
      var n := |clients| - 1;
      KeysStay(lower, clients[..n], resolve, before, after);
      KeyStays(lower, clients[n], resolve(clients[n]), AnonymousCount(clients[..n], resolve), before, after);
    }
  }

  lemma KeyStays(lower: Text -> Text, client: Client, entry: Option<Entry>, index: nat, before: map<nat, nat>,
                 after: map<nat, nat>)
    requires client.Object? && Anonymous(client, entry) ==> client.identity in before
    requires Extends(before, after)
    ensures client.Object? && Anonymous(client, entry) ==> client.identity in after
    ensures KeyOf(lower, client, entry, index, before) == KeyOf(lower, client, entry, index, after)
  {
    hide Cleaned, EntryId, WindowOf, Digits, Ascii;
  }

  /** Adding a client appends it to the group of its key, which is new if the key is. */
  lemma GroupingGrows(order: seq<Text>, groups: map<Text, Group>, clients: seq<Client>, keys: seq<Text>,
                      resolve: Client -> Option<Entry>, client: Client, key: Text)
    requires IsGrouping(order, groups, clients, keys, resolve)
    ensures var fresh_ := Group(key, resolve(client), ClassName(WindowOf(client)), false, []);
            var group := if key in groups then groups[key] else fresh_;
            IsGrouping(if key in groups then order else order + [key],
                       groups[key := group.(windows := group.windows + [client])],
                       clients + [client], keys + [key], resolve)
  {
    hide ClassName, WindowOf, Under, FirstOccurrences, GroupUnder;
    var group := if key in groups then groups[key]
      else Group(key, resolve(client), ClassName(WindowOf(client)), false, []);
    var grown := groups[key := group.(windows := group.windows + [client])];
    OccurrencesGrow(keys, key);
    forall k ensures k in grown <==> k in keys + [key] {}
    forall k | k in grown ensures grown[k] == GroupUnder(clients + [client], keys + [key], resolve, k) {
      GroupUnderGrows(clients, keys, resolve, client, key, k);
    }
  }

  lemma OccurrencesGrow(keys: seq<Text>, key: Text)
    ensures FirstOccurrences(keys + [key]) == FirstOccurrences(keys) + if key in keys then [] else [key]
  {
    assert (keys + [key])[..|keys|] == keys;
  }

  /** One group after a client was added: unchanged, longer, or new. */
  lemma GroupUnderGrows(clients: seq<Client>, keys: seq<Text>, resolve: Client -> Option<Entry>, client: Client,
                        key: Text, k: Text)
    requires |keys| == |clients| && (k in keys || k == key)
    ensures var group := if k in keys then GroupUnder(clients, keys, resolve, k)
                         else Group(key, resolve(client), ClassName(WindowOf(client)), false, []);
            k in keys + [key] && GroupUnder(clients + [client], keys + [key], resolve, k) ==
            if k == key then group.(windows := group.windows + [client]) else group
  {
    hide ClassName, WindowOf, Under;
    UnderGrows(clients, keys, client, key, k);
  }

  lemma UnderGrows(clients: seq<Client>, keys: seq<Text>, client: Client, key: Text, k: Text)
    requires |keys| == |clients|
    ensures Under(clients + [client], keys + [key], k) == Under(clients, keys, k) + if k == key then [client] else []
  {
    assert (keys + [key])[..|keys|] == keys && (clients + [client])[..|clients|] == clients;
  }

  // ---- Laws of the grouping ----

  /** Every client stands in the group of its key, after the earlier clients of that group and before the later ones. */
  lemma {:induction false} ClientKeepsItsPlace(clients: seq<Client>, keys: seq<Text>, i: nat)
    requires |keys| == |clients| && i < |clients|
    ensures var windows, earlier := Under(clients, keys, keys[i]), Under(clients[..i], keys[..i], keys[i]);
            |earlier| < |windows| && windows[|earlier|] == clients[i] && windows[..|earlier|] == earlier
  {
    var n := |clients| - 1;
    if i == n {
    } else {
      assert clients[..n][..i] == clients[..i] && keys[..n][..i] == keys[..i];
      ClientKeepsItsPlace(clients[..n], keys[..n], i);
    }
  }

  /** The groups' windows one after the other. */
  function AllWindows(clients: seq<Client>, keys: seq<Text>, order: seq<Text>): seq<Client>
    requires |keys| == |clients|
  {
    if order == [] then []
      else AllWindows(clients, keys, order[..|order| - 1]) + Under(clients, keys, order[|order| - 1])
  }

  lemma {:induction false} OneMoreClient(clients: seq<Client>, keys: seq<Text>, order: seq<Text>)
    requires |keys| == |clients| > 0 && forall i, j :: 0 <= i < j < |order| ==> order[i] != order[j]
    ensures var n := |clients| - 1;
            multiset(AllWindows(clients, keys, order)) ==
            multiset(AllWindows(clients[..n], keys[..n], order)) + if keys[n] in order then multiset{clients[n]}
              else multiset{}
  {
    if order == [] {
    } else {
      var m := |order| - 1;
      assert order == order[..m] + [order[m]];
      OneMoreClient(clients, keys, order[..m]);
    }
  }

  lemma {:induction false} NoClients(order: seq<Text>)
    ensures AllWindows([], [], order) == []
  {
    if order == [] {
    } else {
      NoClients(order[..|order| - 1]);
    }
  }

  lemma {:induction false} WindowsArePartitioned(clients: seq<Client>, keys: seq<Text>, order: seq<Text>)
    requires |keys| == |clients| && (forall i, j :: 0 <= i < j < |order| ==> order[i] != order[j])
    requires forall i :: 0 <= i < |keys| ==> keys[i] in order
    ensures multiset(AllWindows(clients, keys, order)) == multiset(clients)
  {
    if clients == [] {
      NoClients(order);
    } else {
      var n := |clients| - 1;
      assert clients == clients[..n] + [clients[n]] && keys == keys[..n] + [keys[n]];
      WindowsArePartitioned(clients[..n], keys[..n], order);
      OneMoreClient(clients, keys, order);
    }
  }

  /** Grouping loses no client and duplicates none. */
  lemma GroupingPartitions(order: seq<Text>, groups: map<Text, Group>, clients: seq<Client>, keys: seq<Text>,
                           resolve: Client -> Option<Entry>)
    requires IsGrouping(order, groups, clients, keys, resolve)
    ensures multiset(AllWindows(clients, keys, order)) == multiset(clients)
    ensures forall k :: k in order <==> k in groups
    ensures forall k :: k in groups ==> groups[k].windows == Under(clients, keys, k) != [] && groups[k].key == k
  {
    WindowsArePartitioned(clients, keys, order);
  }

  /** Where a key first appears. */
  function FirstIndex(keys: seq<Text>, key: Text): (i: nat)
    requires key in keys
    ensures i < |keys| && keys[i] == key && forall j :: 0 <= j < i ==> keys[j] != key
  {
    if keys[0] == key then 0 else 1 + FirstIndex(keys[1..], key)
  }

  /** Groups come in the order in which their keys first appear. */
  lemma {:induction false} GroupsFollowFirstAppearance(keys: seq<Text>, a: nat, b: nat)
    requires a < b < |FirstOccurrences(keys)|
    ensures FirstIndex(keys, FirstOccurrences(keys)[a]) < FirstIndex(keys, FirstOccurrences(keys)[b])
  {
    var n := |keys| - 1;
    var order, before := FirstOccurrences(keys), FirstOccurrences(keys[..n]);
    assert keys == keys[..n] + [keys[n]];
    assert order[a] in before;
    var i := FirstIndex(keys, order[a]);
    assert FirstIndex(keys[..n], order[a]) == i by { SameFirst(keys, order[a]); }
    if b < |before| {
      GroupsFollowFirstAppearance(keys[..n], a, b);
      assert order[b] in before;
      SameFirst(keys, order[b]);
    }
  }

  lemma SameFirst(keys: seq<Text>, key: Text)
    requires keys != [] && key in keys[..|keys| - 1]
    ensures FirstIndex(keys[..|keys| - 1], key) == FirstIndex(keys, key)
  {
    var front := keys[..|keys| - 1];
    assert forall k :: 0 <= k < |front| ==> front[k] == keys[k];
    assert keys[FirstIndex(front, key)] == key;
  }

  lemma SamePrefix(prefix: Text, x: Text, y: Text)
    ensures prefix + x == prefix + y ==> x == y
  {
    assert x == (prefix + x)[|prefix|..] && y == (prefix + y)[|prefix|..];
  }

  // ---- When two clients share a key ----

  /** What a client's key is made from. */
  datatype Source = Named(name: Text) | Addressed(address: Text) | Numbering(n: nat) | Position(i: nat)

  function SourceOf(lower: Text -> Text, client: Client, entry: Option<Entry>, index: nat,
                    numbers: map<nat, nat>): Source
    requires client.Object? && Anonymous(client, entry) ==> client.identity in numbers
  {
    var window := WindowOf(client);
    var identity := if Cleaned(window.initialClass) != [] then Cleaned(window.initialClass) else Cleaned(window.class_);
    if EntryId(entry) != [] then Named(EntryId(entry))
    else if identity != [] then Named(lower(identity))
    else if Cleaned(window.address) != [] then Addressed(Cleaned(window.address))
    else if client.Object? then Numbering(numbers[client.identity])
    else Position(index)
  }

  const LABEL := Ascii("anonymous:")

  function KeyText(source: Source): Text {
    match source
    case Named(name) => name
    case Addressed(address) => WINDOW + address
    case Numbering(n) => ANONYMOUS + Digits(n)
    case Position(i) => WINDOW + Digits(i)
  }

  /** When two sources spell the same key: they are the same, or one spells what the other stands for. */
  predicate SameKey(a: Source, b: Source) {
    || a == b
    || (a.Named? && a.name == KeyText(b)) || (b.Named? && b.name == KeyText(a))
    || (a.Addressed? && AddressSpells(a.address, b)) || (b.Addressed? && AddressSpells(b.address, a))
  }

  /** Whether a reported address looks like the number of an anonymous window or the position of an unknown one. */
  predicate AddressSpells(address: Text, source: Source) {
    (source.Numbering? && address == LABEL + Digits(source.n)) || (source.Position? && address == Digits(source.i))
  }

  lemma KeyIsOfSource(lower: Text -> Text, client: Client, entry: Option<Entry>, index: nat, numbers: map<nat, nat>)
    requires client.Object? && Anonymous(client, entry) ==> client.identity in numbers
    ensures KeyOf(lower, client, entry, index, numbers) == KeyText(SourceOf(lower, client, entry, index, numbers))
  {
    hide Cleaned, EntryId, WindowOf, Digits, Ascii;
  }

  /** The key of an anonymous window is that of a window whose address is its label and number. */
  lemma NumberIsLabelled(n: nat)
    ensures ANONYMOUS + Digits(n) == WINDOW + (LABEL + Digits(n))
  {
    hide Ascii, Digits;
    AsciiConcat("window:", "anonymous:");
    assert "window:" + "anonymous:" == "window:anonymous:";
  }

  lemma DigitsDiffer(m: nat, n: nat)
    requires Digits(m) == Digits(n)
    ensures m == n
  {
    hide Digits;
    DigitsReadBack(m);
    DigitsReadBack(n);
  }

  /** No number looks like a label. */
  lemma LabelIsNoNumber(n: nat, i: nat)
    ensures LABEL + Digits(n) != Digits(i)
  {
    hide Ascii, Digits;
    var spelt := "anonymous:";
    assert spelt[0] == 'a' && LABEL[0] == 0x61;
    assert (LABEL + Digits(n))[0] == 0x61;
    assert 0x30 <= Digits(i)[0] <= 0x39;
  }

  /** Two keys are the same text exactly when one of their sources spells the other. */
  lemma KeysCollideExactly(a: Source, b: Source)
    ensures KeyText(a) == KeyText(b) <==> SameKey(a, b)
  {
    hide Ascii, Digits, WINDOW, ANONYMOUS, LABEL;
    if !a.Named? && !b.Named? {
      WindowsCollideExactly(a, b);
    }
  }

  lemma WindowsCollideExactly(a: Source, b: Source)
    requires !a.Named? && !b.Named?
    ensures KeyText(a) == KeyText(b) <==>
            a == b || (a.Addressed? && AddressSpells(a.address, b)) || (b.Addressed? && AddressSpells(b.address, a))
  {
    hide Ascii, Digits;
    var x, y := Tail(a), Tail(b);
    TailEndsKey(a);
    TailEndsKey(b);
    SamePrefix(WINDOW, x, y);
    if a.Numbering? && b.Numbering? && x == y {
      SamePrefix(LABEL, Digits(a.n), Digits(b.n));
      DigitsDiffer(a.n, b.n);
    }
    if a.Position? && b.Position? && x == y {
      DigitsDiffer(a.i, b.i);
    }
    if a.Numbering? && b.Position? {
      LabelIsNoNumber(a.n, b.i);
    }
    if a.Position? && b.Numbering? {
      LabelIsNoNumber(b.n, a.i);
    }
  }

  /** What follows the window prefix in a key. */
  function Tail(source: Source): Text
    requires !source.Named?
  {
    match source
    case Addressed(address) => address
    case Numbering(n) => LABEL + Digits(n)
    case Position(i) => Digits(i)
  }

  lemma TailEndsKey(source: Source)
    requires !source.Named?
    ensures KeyText(source) == WINDOW + Tail(source)
  {
    hide Ascii, Digits;
    if source.Numbering? {
      NumberIsLabelled(source.n);
    }
  }

  /** Two clients are grouped together exactly when their sources spell the same key. */
  lemma ClientsShareKeyExactly(lower: Text -> Text, numbers: map<nat, nat>, c: Client, entryC: Option<Entry>, i: nat,
                               d: Client, entryD: Option<Entry>, j: nat)
    requires c.Object? && Anonymous(c, entryC) ==> c.identity in numbers
    requires d.Object? && Anonymous(d, entryD) ==> d.identity in numbers
    ensures KeyOf(lower, c, entryC, i, numbers) == KeyOf(lower, d, entryD, j, numbers) <==>
            SameKey(SourceOf(lower, c, entryC, i, numbers), SourceOf(lower, d, entryD, j, numbers))
  {
    hide KeyOf, SourceOf, KeyText, SameKey, Anonymous;
    KeyIsOfSource(lower, c, entryC, i, numbers);
    KeyIsOfSource(lower, d, entryD, j, numbers);
    KeysCollideExactly(SourceOf(lower, c, entryC, i, numbers), SourceOf(lower, d, entryD, j, numbers));
  }

  /** A window whose class spells an anonymous window's key joins that window's group. */
  lemma ClassJoinsAnonymous(lower: Text -> Text, numbers: map<nat, nat>, c: Client, d: Client, i: nat, j: nat)
    requires d.Object? && Anonymous(d, None) && d.identity in numbers
    requires var spelt := ANONYMOUS + Digits(numbers[d.identity]);
             ClassName(WindowOf(c)) == spelt && Cleaned(WindowOf(c).initialClass) == [] && lower(spelt) == spelt
    ensures KeyOf(lower, c, None, i, numbers) == KeyOf(lower, d, None, j, numbers)
  {
    hide Ascii, Digits, Trim;
    TrimsToItself([]);
  }

  /** A window whose address is the position of a client without object joins that client's group. */
  lemma AddressJoinsPosition(lower: Text -> Text, numbers: map<nat, nat>, c: Client, i: nat, j: nat)
    requires ClassName(WindowOf(c)) == [] && Cleaned(WindowOf(c).address) == Digits(j)
    ensures KeyOf(lower, c, None, i, numbers) == KeyOf(lower, Primitive, None, j, numbers)
  {
    hide Ascii, Digits, Trim;
    TrimsToItself([]);
  }

  /** Two anonymous client objects never share a key. */
  lemma AnonymousKeysDiffer(lower: Text -> Text, numbers: map<nat, nat>, c: Client, d: Client, entryC: Option<Entry>,
                            entryD: Option<Entry>, i: nat, j: nat)
    requires c.Object? && d.Object? && c.identity != d.identity && Anonymous(c, entryC) && Anonymous(d, entryD)
    requires c.identity in numbers && d.identity in numbers
    requires forall a, b :: a in numbers && b in numbers && a != b ==> numbers[a] != numbers[b]
    ensures KeyOf(lower, c, entryC, i, numbers) != KeyOf(lower, d, entryD, j, numbers)
  {
    hide Ascii, Digits;
    var m, n := numbers[c.identity], numbers[d.identity];
    DigitsReadBack(m);
    DigitsReadBack(n);
    SamePrefix(ANONYMOUS, Digits(m), Digits(n));
  }

  /**
   * Grouping unchanged windows again gives the same groups in the same order, however many numbers were
   * handed out since.
   */
  lemma GroupingRepeats(lower: Text -> Text, clients: seq<Client>, resolve: Client -> Option<Entry>,
                        before: map<nat, nat>, after: map<nat, nat>,
                        order1: seq<Text>, groups1: map<Text, Group>, order2: seq<Text>, groups2: map<Text, Group>)
    requires Numbered(clients, resolve, before) && Extends(before, after)
    requires Numbered(clients, resolve, after)
    requires IsGrouping(order1, groups1, clients, Keys(lower, clients, resolve, before), resolve)
    requires IsGrouping(order2, groups2, clients, Keys(lower, clients, resolve, after), resolve)
    ensures order1 == order2 && groups1 == groups2
  {
    hide Extends, Keys, Numbered;
    KeysStay(lower, clients, resolve, before, after);
    SameGrouping(order1, groups1, order2, groups2, clients, Keys(lower, clients, resolve, before), resolve);
  }

  lemma SameGrouping(order1: seq<Text>, groups1: map<Text, Group>, order2: seq<Text>, groups2: map<Text, Group>,
                     clients: seq<Client>, keys: seq<Text>, resolve: Client -> Option<Entry>)
    requires IsGrouping(order1, groups1, clients, keys, resolve) && IsGrouping(order2, groups2, clients, keys, resolve)
    ensures order1 == order2 && groups1 == groups2
  {
    hide GroupUnder, FirstOccurrences;
    assert groups1.Keys == groups2.Keys;
  }

  // ---- What a key says ----

  /** Nothing, or nothing but white space. */
  predicate IsBlank(value: Option<Text>) { value.None? || Trim(value.value) == [] }

  /**
   * The key of a window of a client object: the entry's id, or else its initial class or else its class in lower
   * case, or else its address or the object's number behind a prefix, each trimmed and passed over when blank.
   */
  lemma KeySays(lower: Text -> Text, identity: nat, w: Window, entry: Option<Entry>, index: nat, numbers: map<nat, nat>)
    requires Anonymous(Object(identity, Some(w)), entry) ==> identity in numbers
    ensures var key := KeyOf(lower, Object(identity, Some(w)), entry, index, numbers);
            if entry.Some? && !IsBlank(entry.value.id) then key == Trim(entry.value.id.value)
            else if !IsBlank(w.initialClass) then key == lower(Trim(w.initialClass.value))
            else if !IsBlank(w.class_) then key == lower(Trim(w.class_.value))
            else if !IsBlank(w.address) then key == Ascii("window:") + Trim(w.address.value)
            else identity in numbers && key == Ascii("window:anonymous:") + Digits(numbers[identity])
  {
    hide Ascii, Digits, Trim;
    TrimsToItself([]);
  }

  /** What has no object, or an object no window, has only its entry's id, its number or its position. */
  lemma KeyWithoutWindow(lower: Text -> Text, identity: nat, entry: Option<Entry>, index: nat, numbers: map<nat, nat>)
    requires identity in numbers
    ensures entry.None? || IsBlank(entry.value.id) ==>
              && KeyOf(lower, Object(identity, None), entry, index, numbers) ==
                   Ascii("window:anonymous:") + Digits(numbers[identity])
              && KeyOf(lower, Primitive, entry, index, numbers) == Ascii("window:") + Digits(index)
    ensures entry.Some? && !IsBlank(entry.value.id) ==>
              KeyOf(lower, Primitive, entry, index, numbers) == Trim(entry.value.id.value)
  {
    hide Ascii, Digits, Trim;
    TrimsToItself([]);
  }

  /** The class of a group is its first window's class, or else its initial class. */
  lemma ClassSays(w: Window)
    ensures !IsBlank(w.class_) ==> ClassName(w) == Trim(w.class_.value)
    ensures IsBlank(w.class_) && !IsBlank(w.initialClass) ==> ClassName(w) == Trim(w.initialClass.value)
    ensures IsBlank(w.class_) && IsBlank(w.initialClass) ==> ClassName(w) == []
  {
    hide Trim;
    TrimsToItself([]);
  }
}
