/** The grammar of a TLS ClientHello as far as the sniffer reads it (section 4.1.2 of RFC 8446 and
    section 3 of RFC 6066), and the answer that belongs to each byte string. */
module ClientHelloSpec {
  import opened Sequences

  type Byte = x: int | 0 <= x < 256

  datatype Sniffed = Name(name: seq<Byte>) | NoClue | NotClientHello | NotTls

  // ---- structure and bytes ----

  datatype Entry = Entry(kind: Byte, name: seq<Byte>) {
    predicate Fits() { |name| < 65536 }
  }

  datatype Extension = ServerName(names: seq<Entry>) | Other(kind: nat, body: seq<Byte>) {
    predicate Fits() {
      match this
      case ServerName(names) => AllFit(names) && |NamesBytes(names)| + 2 < 65536
      case Other(kind, body) => 0 < kind < 65536 && |body| < 65536
    }
  }

  /** What comes before the extensions: type, length, version and random make the head. */
  datatype Prelude = Prelude(head: seq<Byte>, session: seq<Byte>, ciphers: seq<Byte>, compressions: seq<Byte>) {
    predicate Fits() {
      |head| == 38 && |session| <= 32 && |ciphers| < 65536 && |ciphers| % 2 == 0 && |compressions| < 256
    }
  }

  function Two(n: nat): (r: seq<Byte>)
    requires n < 65536
    ensures |r| == 2 && Number(r[0], r[1]) == n
  {
    [n / 256, n % 256]
  }

  function Number(a: Byte, b: Byte): (n: nat)
    ensures n < 65536
  {
    a * 256 + b
  }

  lemma TwoOfNumber(a: Byte, b: Byte)
    ensures Two(Number(a, b)) == [a, b]
  {
  }

  predicate AllFit(names: seq<Entry>) {
    forall i :: 0 <= i < |names| ==> names[i].Fits()
  }

  function EntryBytes(e: Entry): seq<Byte>
    requires e.Fits()
  {
    [e.kind] + Two(|e.name|) + e.name
  }

  function NamesBytes(names: seq<Entry>): seq<Byte>
    requires AllFit(names)
  {
    if names == [] then [] else EntryBytes(names[0]) + NamesBytes(names[1..])
  }

  function ListBytes(names: seq<Byte>): seq<Byte>
    requires |names| < 65536
  {
    Two(|names|) + names
  }

  function Tagged(kind: nat, body: seq<Byte>): seq<Byte>
    requires kind < 65536 && |body| < 65536
  {
    Two(kind) + Two(|body|) + body
  }

  function ExtensionBytes(x: Extension): seq<Byte>
    requires x.Fits()
  {
    match x
    case ServerName(names) => Tagged(0, ListBytes(NamesBytes(names)))
    case Other(kind, body) => Tagged(kind, body)
  }

  predicate ExtensionsFit(xs: seq<Extension>) {
    forall i :: 0 <= i < |xs| ==> xs[i].Fits()
  }

  function ExtensionsBytes(xs: seq<Extension>): seq<Byte>
    requires ExtensionsFit(xs)
  {
    if xs == [] then [] else ExtensionBytes(xs[0]) + ExtensionsBytes(xs[1..])
  }

  function PreludeBytes(p: Prelude): seq<Byte>
    requires p.Fits()
  {
    p.head + ([|p.session|] + p.session + (Two(|p.ciphers|) + p.ciphers + ([|p.compressions|] + p.compressions)))
  }

  // ---- what the reader answers ----

  datatype Scan = Host(name: seq<Byte>) | Broken | Nothing

  predicate EndsInDot(s: seq<Byte>) {
    |s| > 0 && s[|s| - 1] == 46
  }

  function NamesScan(d: seq<Byte>): Scan
    decreases |d|
  {
    if |d| == 0 then Nothing
    else if |d| < 3 then Broken
    else
      var n, rest := Number(d[1], d[2]), d[3..];
      if |rest| < n then Broken
      else if d[0] == 0 then (if EndsInDot(rest[..n]) then Broken else Host(rest[..n]))
      else NamesScan(rest[n..])
  }

  function ListScan(body: seq<Byte>): Scan {
    if |body| < 2 || |body| - 2 != Number(body[0], body[1]) then Broken else NamesScan(body[2..])
  }

  function ExtensionsScan(data: seq<Byte>): Scan
    decreases |data|
  {
    if |data| == 0 then Nothing
    else if |data| < 4 then Broken
    else
      var kind, n, rest := Number(data[0], data[1]), Number(data[2], data[3]), data[4..];
      if |rest| < n then Broken
      else
        var here := if kind == 0 then ListScan(rest[..n]) else Nothing;
        if here == Nothing then ExtensionsScan(rest[n..]) else here
  }

  function FromScan(s: Scan): Sniffed {
    match s
    case Host(name) => Name(name)
    case Broken => NotClientHello
    case Nothing => NotTls
  }

  function Body(data: seq<Byte>): Sniffed {
    if |data| < 2 || Number(data[0], data[1]) != |data| - 2 then NotClientHello
    else FromScan(ExtensionsScan(data[2..]))
  }

  function AfterCiphers(data: seq<Byte>): Sniffed {
    if |data| < 1 then NoClue
    else
      var n: nat := data[0];
      if |data| < 1 + n then NoClue else Body(data[1 + n..])
  }

  function AfterSession(data: seq<Byte>): Sniffed {
    if |data| < 2 then NoClue
    else
      var n := Number(data[0], data[1]);
      if n % 2 == 1 || |data| < 2 + n then NotClientHello else AfterCiphers(data[2 + n..])
  }

  function Hello(data: seq<Byte>): Sniffed {
    if |data| < 42 then NoClue
    else
      var n: nat := data[38];
      if n > 32 || |data| < 39 + n then NoClue else AfterSession(data[39 + n..])
  }

  // ---- one list of names ----

  lemma EntryFirst(e: Entry, rest: seq<Byte>)
    requires e.Fits()
    ensures var d := EntryBytes(e) + rest;
      |d| >= 3 && d[0] == e.kind && Number(d[1], d[2]) == |e.name| <= |d[3..]|
      && d[3..][..|e.name|] == e.name && d[3..][|e.name|..] == rest
  {
    hide Two, Number;
    var two := Two(|e.name|);
    assert EntryBytes(e) + rest == [e.kind, two[0], two[1]] + (e.name + rest);
  }

  lemma EntryOf(d: seq<Byte>)
    requires |d| >= 3 && Number(d[1], d[2]) <= |d| - 3
    ensures var n := Number(d[1], d[2]); var e := Entry(d[0], d[3..][..n]);
      e.Fits() && d == EntryBytes(e) + d[3..][n..]
  {
    hide Two, Number;
    TwoOfNumber(d[1], d[2]);
    assert d == [d[0], d[1], d[2]] + d[3..];
  }

  /** No entry is a host name. */
  predicate NoHost(names: seq<Entry>) {
    forall i :: 0 <= i < |names| ==> names[i].kind != 0
  }

  lemma {:induction false} NamesSkipped(names: seq<Entry>, rest: seq<Byte>)
    requires AllFit(names) && NoHost(names)
    ensures NamesScan(NamesBytes(names) + rest) == NamesScan(rest)
    decreases |names|
  {
    if names == [] {
      assert NamesBytes(names) + rest == rest;
    } else {
      var more := NamesBytes(names[1..]) + rest;
      assert NamesBytes(names) + rest == EntryBytes(names[0]) + more;
      EntryFirst(names[0], more);
      NamesSkipped(names[1..], rest);
    }
  }

  lemma HostRead(name: seq<Byte>, rest: seq<Byte>)
    requires |name| < 65536
    ensures NamesScan(EntryBytes(Entry(0, name)) + rest) == if EndsInDot(name) then Broken else Host(name)
  {
    EntryFirst(Entry(0, name), rest);
  }

  lemma NamesCons(e: Entry, names: seq<Entry>)
    requires e.Fits() && AllFit(names)
    ensures AllFit([e] + names) && NamesBytes([e] + names) == EntryBytes(e) + NamesBytes(names)
  {
    assert ([e] + names)[1..] == names;
  }

  /** A host name that is found has only other names before it. */
  lemma {:induction false} NamesFound(d: seq<Byte>) returns (names: seq<Entry>, more: seq<Byte>)
    requires NamesScan(d).Host?
    ensures AllFit(names) && NoHost(names)
    ensures |NamesScan(d).name| < 65536 && !EndsInDot(NamesScan(d).name)
    ensures d == NamesBytes(names) + (EntryBytes(Entry(0, NamesScan(d).name)) + more)
    decreases |d|
  {
    hide EntryBytes, Number;
    EntryOf(d);
    var n := Number(d[1], d[2]);
    var e, rest := Entry(d[0], d[3..][..n]), d[3..][n..];
    if e.kind == 0 {
      names, more := [], rest;
      assert d == [] + (EntryBytes(e) + rest);
    } else {
      var tail;
      tail, more := NamesFound(rest);
      NamesCons(e, tail);
      names := [e] + tail;
    }
  }

  /** When nothing is found the list is well formed and has no host name. */
  lemma {:induction false} NamesMissing(d: seq<Byte>) returns (names: seq<Entry>)
    requires NamesScan(d) == Nothing
    ensures AllFit(names) && NoHost(names) && d == NamesBytes(names)
    decreases |d|
  {
    hide EntryBytes, Number;
    if d == [] {
      names := [];
    } else {
      EntryOf(d);
      var n := Number(d[1], d[2]);
      var tail := NamesMissing(d[3..][n..]);
      NamesCons(Entry(d[0], d[3..][..n]), tail);
      names := [Entry(d[0], d[3..][..n])] + tail;
    }
  }

  lemma ListRead(names: seq<Byte>)
    requires |names| < 65536
    ensures ListScan(ListBytes(names)) == NamesScan(names)
  {
    hide Two, Number, NamesScan;
    assert ListBytes(names)[2..] == names;
  }

  lemma ListOf(body: seq<Byte>)
    requires ListScan(body) != Broken
    ensures |body| >= 2 && |body| - 2 < 65536 && body == ListBytes(body[2..]) && ListScan(body) == NamesScan(body[2..])
  {
    hide Two, Number, NamesScan;
    TwoOfNumber(body[0], body[1]);
    assert body == [body[0], body[1]] + body[2..];
  }

  // ---- the extensions ----

  lemma TaggedFirst(kind: nat, body: seq<Byte>, rest: seq<Byte>)
    requires kind < 65536 && |body| < 65536
    ensures var d := Tagged(kind, body) + rest;
      |d| >= 4 && Number(d[0], d[1]) == kind && Number(d[2], d[3]) == |body| <= |d[4..]|
      && d[4..][..|body|] == body && d[4..][|body|..] == rest
  {
    hide Two, Number;
    var k, n := Two(kind), Two(|body|);
    assert Tagged(kind, body) + rest == [k[0], k[1], n[0], n[1]] + (body + rest);
  }

  lemma TaggedOf(d: seq<Byte>)
    requires |d| >= 4 && Number(d[2], d[3]) <= |d| - 4
    ensures var n := Number(d[2], d[3]); d == Tagged(Number(d[0], d[1]), d[4..][..n]) + d[4..][n..]
  {
    hide Two, Number;
    TwoOfNumber(d[0], d[1]);
    TwoOfNumber(d[2], d[3]);
    assert d == [d[0], d[1]] + [d[2], d[3]] + d[4..];
  }

  /** Reading one extension. */
  lemma TaggedScan(kind: nat, body: seq<Byte>, rest: seq<Byte>)
    requires kind < 65536 && |body| < 65536
    ensures ExtensionsScan(Tagged(kind, body) + rest)
         == if kind != 0 || ListScan(body) == Nothing then ExtensionsScan(rest) else ListScan(body)
  {
    hide Two, Number, ListScan, Tagged;
    TaggedFirst(kind, body, rest);
  }

  predicate NoHosts(xs: seq<Extension>) {
    forall i :: 0 <= i < |xs| ==> xs[i].ServerName? ==> NoHost(xs[i].names)
  }

  lemma ExtensionSkipped(x: Extension, rest: seq<Byte>)
    requires x.Fits() && (x.ServerName? ==> NoHost(x.names))
    ensures ExtensionsScan(ExtensionBytes(x) + rest) == ExtensionsScan(rest)
  {
    hide Tagged, ListScan, ListBytes, NamesBytes, NamesScan;
    match x
    case Other(kind, body) =>
      TaggedScan(kind, body, rest);
    case ServerName(names) =>
      ListSize(NamesBytes(names));
      TaggedScan(0, ListBytes(NamesBytes(names)), rest);
      ListRead(NamesBytes(names));
      NamesSkipped(names, []);
      EmptyNames(NamesBytes(names));
  }

  lemma ListSize(names: seq<Byte>)
    requires |names| < 65536
    ensures |ListBytes(names)| == 2 + |names|
  {
  }

  lemma EmptyNames(d: seq<Byte>)
    ensures d + [] == d && NamesScan([]) == Nothing
  {
  }

  lemma {:induction false} ExtensionsSkipped(xs: seq<Extension>, rest: seq<Byte>)
    requires ExtensionsFit(xs) && NoHosts(xs)
    ensures ExtensionsScan(ExtensionsBytes(xs) + rest) == ExtensionsScan(rest)
    decreases |xs|
  {
    hide ExtensionBytes;
    if xs == [] {
      assert ExtensionsBytes(xs) + rest == rest;
    } else {
      var more := ExtensionsBytes(xs[1..]) + rest;
      assert ExtensionsBytes(xs) + rest == ExtensionBytes(xs[0]) + more;
      ExtensionSkipped(xs[0], more);
      ExtensionsSkipped(xs[1..], rest);
    }
  }

  lemma ExtensionsCons(x: Extension, xs: seq<Extension>)
    requires x.Fits() && ExtensionsFit(xs)
    ensures ExtensionsFit([x] + xs) && ExtensionsBytes([x] + xs) == ExtensionBytes(x) + ExtensionsBytes(xs)
  {
    hide ExtensionBytes;
    assert ([x] + xs)[1..] == xs;
  }

  /** The extension at the front of data that the scan passes over. */
  lemma ExtensionPassed(d: seq<Byte>) returns (x: Extension, rest: seq<Byte>)
    requires |d| > 0 && ExtensionsScan(d) != Broken
    requires var n := Number(d[2], d[3]); Number(d[0], d[1]) != 0 || ListScan(d[4..][..n]) == Nothing
    ensures x.Fits() && (x.ServerName? ==> NoHost(x.names)) && |rest| < |d|
    ensures d == ExtensionBytes(x) + rest && ExtensionsScan(d) == ExtensionsScan(rest)
  {
    hide Two, Number, ListScan, Tagged, NamesBytes;
    TaggedOf(d);
    var kind, n := Number(d[0], d[1]), Number(d[2], d[3]);
    var body := d[4..][..n];
    rest := d[4..][n..];
    if kind != 0 {
      x := Other(kind, body);
    } else {
      ListOf(body);
      var names := NamesMissing(body[2..]);
      x := ServerName(names);
    }
  }

  lemma {:induction false} ExtensionsMissing(data: seq<Byte>) returns (xs: seq<Extension>)
    requires ExtensionsScan(data) == Nothing
    ensures ExtensionsFit(xs) && NoHosts(xs) && data == ExtensionsBytes(xs)
    decreases |data|
  {
    hide ExtensionBytes, Number, ListScan;
    if data == [] {
      xs := [];
    } else {
      var x, rest := ExtensionPassed(data);
      var tail := ExtensionsMissing(rest);
      ExtensionsCons(x, tail);
      xs := [x] + tail;
    }
  }

  /** A host name that is found has only extensions without one before its own. */
  lemma {:induction false} ExtensionsFound(data: seq<Byte>) returns (xs: seq<Extension>, list: seq<Byte>,
                                           more: seq<Byte>)
    requires ExtensionsScan(data).Host?
    ensures ExtensionsFit(xs) && NoHosts(xs) && |list| + 2 < 65536
    ensures NamesScan(list) == ExtensionsScan(data)
    ensures data == ExtensionsBytes(xs) + (Tagged(0, ListBytes(list)) + more)
    decreases |data|
  {
    hide ExtensionBytes, Number, ListScan, Tagged, NamesScan, ListBytes;
    var n := Number(data[2], data[3]);
    var body := data[4..][..n];
    if Number(data[0], data[1]) == 0 && ListScan(body) != Nothing {
      TaggedOf(data);
      ListOf(body);
      xs, list, more := [], body[2..], data[4..][n..];
      assert data == [] + (Tagged(0, body) + more);
    } else {
      var x, rest := ExtensionPassed(data);
      var tail;
      tail, list, more := ExtensionsFound(rest);
      ExtensionsCons(x, tail);
      xs := [x] + tail;
      ListSize(list);
      Associate(ExtensionBytes(x), ExtensionsBytes(tail), Tagged(0, ListBytes(list)) + more);
    }
  }

  // ---- what comes before the extensions ----

  lemma PreludeRead(p: Prelude, data: seq<Byte>)
    requires p.Fits()
    ensures Hello(PreludeBytes(p) + data) == Body(data)
  {
    hide Number, Body;
    var three := [|p.compressions|] + p.compressions;
    var two := Two(|p.ciphers|) + p.ciphers;
    var one := [|p.session|] + p.session;
    var all := PreludeBytes(p) + data;
    assert all == p.head + one + (two + (three + data));
    assert all[38] == |p.session| && all[39 + |p.session|..] == two + (three + data);
    CiphersRead(p.ciphers, three + data);
    assert (three + data)[1 + |p.compressions|..] == data;
  }

  lemma CiphersRead(ciphers: seq<Byte>, data: seq<Byte>)
    requires |ciphers| < 65536 && |ciphers| % 2 == 0
    ensures AfterSession(Two(|ciphers|) + ciphers + data) == AfterCiphers(data)
  {
    hide Two, Number, AfterCiphers;
    var two, all := Two(|ciphers|), Two(|ciphers|) + ciphers + data;
    assert all[0] == two[0] && all[1] == two[1];
    assert all[2 + |ciphers|..] == data;
  }

  predicate AboutExtensions(r: Sniffed) {
    r.Name? || r.NotTls?
  }

  lemma CiphersOf(d: seq<Byte>) returns (ciphers: seq<Byte>, rest: seq<Byte>)
    requires AboutExtensions(AfterSession(d))
    ensures |ciphers| < 65536 && |ciphers| % 2 == 0
    ensures d == Two(|ciphers|) + ciphers + rest && AfterSession(d) == AfterCiphers(rest)
  {
    hide Two, Number, AfterCiphers;
    var c := Number(d[0], d[1]);
    ciphers, rest := d[2..2 + c], d[2 + c..];
    TwoOfNumber(d[0], d[1]);
    assert d == [d[0], d[1]] + ciphers + rest;
  }

  lemma CompressionsOf(d: seq<Byte>) returns (compressions: seq<Byte>, rest: seq<Byte>)
    requires AboutExtensions(AfterCiphers(d))
    ensures |compressions| < 256 && d == [|compressions|] + compressions + rest && AfterCiphers(d) == Body(rest)
  {
    hide Body;
    var m: nat := d[0];
    compressions, rest := d[1..1 + m], d[1 + m..];
    assert d == [m] + compressions + rest;
  }

  lemma SessionOf(d: seq<Byte>) returns (head: seq<Byte>, session: seq<Byte>, rest: seq<Byte>)
    requires AboutExtensions(Hello(d))
    ensures |head| == 38 && |session| <= 32
    ensures d == head + ([|session|] + session + rest) && Hello(d) == AfterSession(rest)
  {
    hide AfterSession;
    var s: nat := d[38];
    head, session, rest := d[..38], d[39..39 + s], d[39 + s..];
    assert d == head + ([s] + session + rest);
  }

  /** An answer about the extensions is given only behind a complete prelude. */
  lemma PreludeOf(all: seq<Byte>) returns (p: Prelude, data: seq<Byte>)
    requires AboutExtensions(Hello(all))
    ensures p.Fits() && all == PreludeBytes(p) + data && Hello(all) == Body(data)
  {
    hide Two, Hello, AfterSession, AfterCiphers, Body;
    var head, session, d1 := SessionOf(all);
    var ciphers, d2 := CiphersOf(d1);
    var compressions, d3 := CompressionsOf(d2);
    data := d3;
    p := Prelude(head, session, ciphers, compressions);
    var three := [|compressions|] + compressions;
    var two := Two(|ciphers|) + ciphers;
    Associate(two, three, data);
    Associate([|session|] + session, two + three, data);
    Associate(head, [|session|] + session + (two + three), data);
  }

  lemma BodyRead(data: seq<Byte>)
    requires |data| < 65536
    ensures Body(ListBytes(data)) == FromScan(ExtensionsScan(data))
  {
    hide Two, Number, ExtensionsScan;
    assert ListBytes(data)[2..] == data;
  }

  lemma BodyOf(data: seq<Byte>)
    requires Body(data) != NotClientHello
    ensures |data| >= 2 && |data| - 2 < 65536 && data == ListBytes(data[2..])
    ensures Body(data) == FromScan(ExtensionsScan(data[2..]))
  {
    hide Two, Number, ExtensionsScan;
    TwoOfNumber(data[0], data[1]);
    assert data == [data[0], data[1]] + data[2..];
  }

  // ---- main results ----

  /** A hello whose first host name is `name`: what is before it is well formed, what is behind it in
      its list and behind its extension is arbitrary. */
  datatype Shape = Shape(
    prelude: Prelude, before: seq<Extension>, others: seq<Entry>, name: seq<Byte>,
    moreNames: seq<Byte>, more: seq<Byte>)
  {
    function List(): seq<Byte>
      requires AllFit(others) && |name| < 65536
    {
      NamesBytes(others) + (EntryBytes(Entry(0, name)) + moreNames)
    }

    function Extensions(): seq<Byte>
      requires ExtensionsFit(before) && AllFit(others) && |name| < 65536 && |List()| + 2 < 65536
    {
      ExtensionsBytes(before) + (Tagged(0, ListBytes(List())) + more)
    }

    predicate Fits() {
      && prelude.Fits()
      && ExtensionsFit(before) && NoHosts(before)
      && AllFit(others) && NoHost(others)
      && |name| < 65536 && |List()| + 2 < 65536 && |Extensions()| < 65536
    }

    function Bytes(): seq<Byte>
      requires Fits()
    {
      PreludeBytes(prelude) + ListBytes(Extensions())
    }
  }

  /** Such a hello is answered with the name, or refused when the name ends in a dot. */
  lemma HostNameIsRead(sh: Shape)
    requires sh.Fits()
    ensures Hello(sh.Bytes()) == if EndsInDot(sh.name) then NotClientHello else Name(sh.name)
  {
    hide Hello, Body, ExtensionsScan, ListScan, NamesScan, PreludeBytes, ExtensionsBytes, NamesBytes, ListBytes,
        Tagged, EntryBytes;
    PreludeRead(sh.prelude, ListBytes(sh.Extensions()));
    BodyRead(sh.Extensions());
    ListSize(sh.List());
    ExtensionsSkipped(sh.before, Tagged(0, ListBytes(sh.List())) + sh.more);
    TaggedScan(0, ListBytes(sh.List()), sh.more);
    ListRead(sh.List());
    NamesSkipped(sh.others, EntryBytes(Entry(0, sh.name)) + sh.moreNames);
    HostRead(sh.name, sh.moreNames);
  }

  ghost predicate HasShape(data: seq<Byte>, s: seq<Byte>) {
    exists sh: Shape :: sh.Fits() && sh.name == s && sh.Bytes() == data
  }

  lemma ShapeOf(data: seq<Byte>) returns (sh: Shape)
    requires Hello(data).Name?
    ensures sh.Fits() && sh.name == Hello(data).name && sh.Bytes() == data && !EndsInDot(sh.name)
  {
    hide Hello, Body, ExtensionsScan, NamesScan, PreludeBytes, ExtensionsBytes, NamesBytes, ListBytes, Tagged,
        EntryBytes;
    var p, d := PreludeOf(data);
    BodyOf(d);
    var before, list, more := ExtensionsFound(d[2..]);
    var others, moreNames := NamesFound(list);
    sh := Shape(p, before, others, Hello(data).name, moreNames, more);
  }

  /** A name is answered exactly for the byte strings in which it is the first host name and has no
      trailing dot. */
  lemma NameExactly(data: seq<Byte>, s: seq<Byte>)
    ensures Hello(data) == Name(s) <==> HasShape(data, s) && !EndsInDot(s)
  {
    hide Hello, Shape.Fits, Shape.Bytes;
    if Hello(data) == Name(s) {
      var sh := ShapeOf(data);
    }
    if HasShape(data, s) && !EndsInDot(s) {
      var sh: Shape :| sh.Fits() && sh.name == s && sh.Bytes() == data;
      HostNameIsRead(sh);
    }
  }

  ghost predicate HasNoName(data: seq<Byte>) {
    exists p: Prelude, xs ::
      p.Fits() && ExtensionsFit(xs) && NoHosts(xs) && |ExtensionsBytes(xs)| < 65536
      && data == PreludeBytes(p) + ListBytes(ExtensionsBytes(xs))
  }

  lemma NoNameIsRead(p: Prelude, xs: seq<Extension>)
    requires p.Fits() && ExtensionsFit(xs) && NoHosts(xs) && |ExtensionsBytes(xs)| < 65536
    ensures Hello(PreludeBytes(p) + ListBytes(ExtensionsBytes(xs))) == NotTls
  {
    hide Hello, Body, PreludeBytes, ExtensionsBytes, ListBytes;
    PreludeRead(p, ListBytes(ExtensionsBytes(xs)));
    BodyRead(ExtensionsBytes(xs));
    ExtensionsSkipped(xs, []);
    assert ExtensionsBytes(xs) + [] == ExtensionsBytes(xs);
  }

  /** "Not TLS" is answered exactly for well-formed hellos without any host name. */
  lemma NotTlsExactly(data: seq<Byte>)
    ensures Hello(data) == NotTls <==> HasNoName(data)
  {
    hide Hello, Body, PreludeBytes, ExtensionsBytes, ListBytes, ExtensionsScan;
    if Hello(data) == NotTls {
      var p, d := PreludeOf(data);
      BodyOf(d);
      var xs := ExtensionsMissing(d[2..]);
    }
    if HasNoName(data) {
      var p: Prelude, xs :|
        p.Fits() && ExtensionsFit(xs) && NoHosts(xs) && |ExtensionsBytes(xs)| < 65536
        && data == PreludeBytes(p) + ListBytes(ExtensionsBytes(xs));
      NoNameIsRead(p, xs);
    }
  }

  // ---- a hello written out ----

  predicate IsText(text: string) {
    forall i :: 0 <= i < |text| ==> text[i] as int < 256
  }

  function TextBytes(text: string): (d: seq<Byte>)
    requires IsText(text)
    ensures |d| == |text| && forall i :: 0 <= i < |text| ==> d[i] == text[i] as int
  {
    seq(|text|, i requires 0 <= i < |text| => text[i] as int)
  }

  /** The smallest hello with a host name: no session, one cipher suite, no compression, one extension. */
  function SmallHello(head: seq<Byte>, text: string): seq<Byte>
    requires |head| == 38 && IsText(text) && |text| < 65000
  {
    var n := |text|;
    head + [0, 0, 2, 0x13, 0x01, 1, 0]
    + ([(n + 9) / 256, (n + 9) % 256]
       + ([0, 0] + [(n + 5) / 256, (n + 5) % 256]
          + ([(n + 3) / 256, (n + 3) % 256] + ([0] + [n / 256, n % 256] + TextBytes(text)))))
  }

  lemma SmallPrelude(head: seq<Byte>)
    requires |head| == 38
    ensures var p := Prelude(head, [], [0x13, 0x01], [0]);
      p.Fits() && PreludeBytes(p) == head + [0, 0, 2, 0x13, 0x01, 1, 0]
  {
    assert [0] + ([] + ([0, 2] + [0x13, 0x01] + ([1] + [0]))) == [0, 0, 2, 0x13, 0x01, 1, 0];
    assert Two(2) == [0, 2];
  }

  lemma SmallList(name: seq<Byte>)
    requires |name| < 65000
    ensures NamesBytes([]) + (EntryBytes(Entry(0, name)) + []) == [0] + Two(|name|) + name
  {
    hide Two;
    assert EntryBytes(Entry(0, name)) + [] == EntryBytes(Entry(0, name));
  }

  lemma SmallExtension(list: seq<Byte>)
    requires |list| < 65500
    ensures ExtensionsBytes([]) + (Tagged(0, ListBytes(list)) + [])
         == Two(0) + Two(|list| + 2) + (Two(|list|) + list)
  {
    hide Two;
    ListSize(list);
    var tag := Tagged(0, ListBytes(list));
    assert ExtensionsBytes([]) + (tag + []) == tag;
  }

  lemma TwoIs(n: nat)
    requires n < 65536
    ensures Two(n) == [n / 256, n % 256]
  {
  }

  lemma SmallShape(head: seq<Byte>, name: seq<Byte>) returns (sh: Shape)
    requires |head| == 38 && |name| < 65000
    ensures sh.Fits() && sh.name == name
    ensures var n := |name|;
      sh.Bytes() == head + [0, 0, 2, 0x13, 0x01, 1, 0]
                    + (Two(n + 9) + (Two(0) + Two(n + 5) + (Two(n + 3) + ([0] + Two(n) + name))))
  {
    hide PreludeBytes, EntryBytes, Tagged, ExtensionsBytes, NamesBytes, Two, ListBytes;
    sh := Shape(Prelude(head, [], [0x13, 0x01], [0]), [], [], name, [], []);
    SmallPrelude(head);
    SmallList(name);
    var list := sh.List();
    assert |list| == |name| + 3;
    SmallExtension(list);
    assert |sh.Extensions()| == |name| + 9;
    ListIs(sh.Extensions());
  }

  lemma ListIs(d: seq<Byte>)
    requires |d| < 65536
    ensures ListBytes(d) == Two(|d|) + d
  {
  }

  /** It is answered with the name, or refused when the name ends in a dot. */
  lemma SmallHelloRead(head: seq<Byte>, text: string)
    requires |head| == 38 && IsText(text) && |text| < 65000
    ensures Hello(SmallHello(head, text)) ==
            if text != "" && text[|text| - 1] == '.' then NotClientHello else Name(TextBytes(text))
  {
    hide Hello, Two, Shape.Bytes, Shape.Fits;
    var n := |text|;
    var sh := SmallShape(head, TextBytes(text));
    TwoIs(0);
    TwoIs(n);
    TwoIs(n + 3);
    TwoIs(n + 5);
    TwoIs(n + 9);
    HostNameIsRead(sh);
  }

  // ---- the record around the hello ----

  function Record(b: seq<Byte>): Sniffed {
    if |b| < 5 then NoClue
    else if b[0] != 0x16 || b[1] != 3 then NotTls
    else
      var n := Number(b[3], b[4]);
      if 5 + n > |b| then NoClue else Hello(b[5..5 + n])
  }

  /** A hello in a handshake record is answered as it is on its own, whatever follows. */
  lemma RecordRead(minor: Byte, hello: seq<Byte>, more: seq<Byte>)
    requires |hello| < 65536
    ensures Record([0x16, 3, minor] + Two(|hello|) + hello + more) == Hello(hello)
  {
    hide Two, Number, Hello;
    var two := Two(|hello|);
    var b := [0x16, 3, minor] + two + hello + more;
    assert b == [0x16, 3, minor, two[0], two[1]] + (hello + more);
    assert b[5..5 + |hello|] == hello;
  }

  /** The record of a handshake that carries `hello`, its length as two bytes, with anything behind it. */
  ghost predicate Carries(b: seq<Byte>, hello: seq<Byte>) {
    exists minor: Byte, more: seq<Byte> ::
      |hello| < 65536 && b == [0x16, 3, minor] + [|hello| / 256, |hello| % 256] + hello + more
  }

  /** A name is answered only for such a record whose hello is answered with it; anything else that is long
      enough and does not begin like one is not TLS. */
  lemma RecordExactly(b: seq<Byte>, s: seq<Byte>)
    ensures Record(b) == Name(s) <==> exists hello :: Carries(b, hello) && Hello(hello) == Name(s)
    ensures |b| >= 5 && (b[0] != 0x16 || b[1] != 3) ==> Record(b) == NotTls
  {
    hide Hello, Two, Number;
    if Record(b) == Name(s) {
      var n := Number(b[3], b[4]);
      var hello := b[5..5 + n];
      TwoOfNumber(b[3], b[4]);
      TwoIs(n);
      assert b == [0x16, 3, b[2]] + [b[3], b[4]] + hello + b[5 + n..];
      assert Carries(b, hello);
    }
    if hello :| Carries(b, hello) && Hello(hello) == Name(s) {
      var minor: Byte, more: seq<Byte> :|
        |hello| < 65536 && b == [0x16, 3, minor] + [|hello| / 256, |hello| % 256] + hello + more;
      TwoIs(|hello|);
      RecordRead(minor, hello, more);
    }
  }
}
