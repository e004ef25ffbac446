/** Presence subscriptions (src/notify.c): subscribers with their contacts, presentities with the
    signatures of those contacts, linked both ways. */
module Notify {
  import opened Options

  /** An address, up to what url_compare does not tell apart. */
  type Url = int

  /** A contact's entry at a presentity: the contact, given by its subscriber and its address, and what
      a notification is addressed with. */
  datatype Signature = Signature(from: Url, contact: Url, url: Url, id: nat)

  /** The links: the presentities of each contact of each subscriber, oldest first, and the signatures
      at each presentity, newest first. */
  datatype Graph = Graph(subscribe: map<Url, map<Url, seq<Url>>>, presence: map<Url, seq<Signature>>)

  /** A notification. */
  datatype Note = Note(request: Url, to: Url, from: Url, id: nat, number: int, open: bool)

  function Contacts(g: Graph, from: Url): map<Url, seq<Url>> {
    if from in g.subscribe then g.subscribe[from] else map[]
  }

  function Watched(g: Graph, from: Url, contact: Url): seq<Url> {
    if contact in Contacts(g, from) then Contacts(g, from)[contact] else []
  }

  function Signatures(g: Graph, to: Url): seq<Signature> {
    if to in g.presence then g.presence[to] else []
  }

  /** The relation: `contact` of `from` watches `to`. */
  predicate Related(g: Graph, from: Url, contact: Url, to: Url) {
    to in Watched(g, from, contact)
  }

  predicate Signed(g: Graph, from: Url, contact: Url, to: Url) {
    var s := Signatures(g, to);
    exists i :: 0 <= i < |s| && s[i].from == from && s[i].contact == contact
  }

  /** The two directions mirror each other. */
  ghost predicate Mirrored(g: Graph) {
    forall from: Url, contact: Url, to: Url :: Related(g, from, contact, to) <==> Signed(g, from, contact, to)
  }

  /** The maps hold no key twice: no contact address at a presentity, no presentity of a contact. */
  predicate Keyed(g: Graph) {
    && (forall t :: t in g.presence ==> OneEach(g.presence[t]))
    && (forall f, c :: f in g.subscribe && c in g.subscribe[f] ==> Distinct(g.subscribe[f][c]))
  }

  predicate OneEach(s: seq<Signature>) {
    forall i, j :: 0 <= i < j < |s| ==> s[i].contact != s[j].contact
  }

  predicate Distinct(s: seq<Url>) {
    forall i, j :: 0 <= i < j < |s| ==> s[i] != s[j]
  }

  /** No subscriber without contacts, no contact without presentities. */
  predicate NoneEmpty(g: Graph) {
    && (forall f :: f in g.subscribe ==> g.subscribe[f] != map[])
    && (forall f, c :: f in g.subscribe && c in g.subscribe[f] ==> g.subscribe[f][c] != [])
  }

  ghost predicate Valid(g: Graph) {
    Mirrored(g) && Keyed(g) && NoneEmpty(g)
  }

  /** map_find by contact address: the index, or -1. */
  function Find(s: seq<Signature>, contact: Url): (i: int)
    ensures -1 <= i < |s| && (i >= 0 ==> s[i].contact == contact)
    ensures i < 0 ==> forall k :: 0 <= k < |s| ==> s[k].contact != contact
  {
    if s == [] then -1
    else if s[0].contact == contact then 0
    else
      var i := Find(s[1..], contact);
      assert forall k :: 0 < k < |s| ==> s[k] == s[1..][k - 1];
      if i < 0 then -1 else i + 1
  }

  /** map_pure or map_get by contact address. */
  function Unsigned(s: seq<Signature>, contact: Url): seq<Signature> {
    var i := Find(s, contact);
    if i < 0 then s else s[..i] + s[i + 1..]
  }

  function Without(s: seq<Url>, t: Url): seq<Url> {
    if s == [] then [] else (if s[0] == t then [] else [s[0]]) + Without(s[1..], t)
  }

  /** The signature of a contact is the newest, unless there is one with its address: that one gets the
      new subscriber address and id, if nothing else was new. */
  function Sign(s: seq<Signature>, from: Url, contact: Url, id: nat, update: bool): seq<Signature> {
    var i := Find(s, contact);
    if i < 0 then [Signature(from, contact, from, id)] + s
    else if update then s[i := s[i].(url := from, id := id)]
    else s
  }

  /** notify_update on the links. */
  function Updated(g: Graph, from: Url, contact: Url, to: Url, id: nat): Graph {
    var known := contact in Contacts(g, from) && to in g.presence;
    var watched := Watched(g, from, contact);
    var contacts := Contacts(g, from)[contact := if to in watched then watched else watched + [to]];
    Graph(g.subscribe[from := contacts], g.presence[to := Sign(Signatures(g, to), from, contact, id, known)])
  }

  /** contact_free: the contact's signature goes from each of its presentities. */
  function Unlinked(presence: map<Url, seq<Signature>>, watched: seq<Url>, contact: Url): map<Url, seq<Signature>> {
    map t | t in presence :: if t in watched then Unsigned(presence[t], contact) else presence[t]
  }

  /** The signatures that go with a subscriber: those of all its contacts. */
  function UnlinkedAll(presence: map<Url, seq<Signature>>, contacts: map<Url, seq<Url>>): map<Url, seq<Signature>> {
    map t | t in presence :: Kept(presence[t], contacts, t)
  }

  /** The signatures whose contact address is not one that watches `t` among these contacts. */
  function Kept(s: seq<Signature>, contacts: map<Url, seq<Url>>, t: Url): seq<Signature> {
    if s == [] then []
    else
      (if s[0].contact in contacts && t in contacts[s[0].contact] then [] else [s[0]]) + Kept(s[1..], contacts, t)
  }

  /** Dropping a contact, and its subscriber with the last one. */
  function Dropped(subscribe: map<Url, map<Url, seq<Url>>>, from: Url, contact: Url): map<Url, map<Url, seq<Url>>>
    requires from in subscribe
  {
    var rest := subscribe[from] - {contact};
    if rest == map[] then subscribe - {from} else subscribe[from := rest]
  }

  /** The signature of one contact goes from one presentity, which goes with its last signature. */
  function Unsubscribed(presence: map<Url, seq<Signature>>, contact: Url, to: Url): map<Url, seq<Signature>> {
    if to !in presence || Find(presence[to], contact) < 0 then presence
    else
      var rest := Unsigned(presence[to], contact);
      if rest == [] then presence - {to} else presence[to := rest]
  }

  /** notify_delete on the links; without a contact, `to` does not matter. */
  function Deleted(g: Graph, from: Url, contact: Option<Url>, to: Option<Url>): Graph {
    if from !in g.subscribe then g
    else if contact.None? then Graph(g.subscribe - {from}, UnlinkedAll(g.presence, g.subscribe[from]))
    else if contact.value !in g.subscribe[from] then g
    else
      var c, watched := contact.value, g.subscribe[from][contact.value];
      match to
      case None => Graph(Dropped(g.subscribe, from, c), Unlinked(g.presence, watched, c))
      case Some(t) =>
        if t !in watched then g
        else
          var rest, presence := Without(watched, t), Unsubscribed(g.presence, c, t);
          if rest == [] then Graph(Dropped(g.subscribe, from, c), presence)
          else Graph(g.subscribe[from := g.subscribe[from][c := rest]], presence)
  }

  /** What a deletion asks for. */
  predicate Asked(from: Url, contact: Option<Url>, to: Option<Url>, f: Url, c: Url, t: Url) {
    f == from && (contact.None? || (c == contact.value && (to.None? || t == to.value)))
  }

  lemma OnlyOne(s: seq<Signature>, contact: Url, i: nat)
    requires OneEach(s) && i < |s| && s[i].contact == contact
    ensures Find(s, contact) == i
  {
  }

  lemma {:induction false} WithoutIs(s: seq<Url>, t: Url)
    ensures forall x :: x in Without(s, t) <==> x in s && x != t
    ensures Distinct(s) ==> Distinct(Without(s, t))
  {
    if s != [] {
      WithoutIs(s[1..], t);
      assert s == [s[0]] + s[1..];
      if Distinct(s) {
        assert forall i :: 0 < i < |s| ==> s[i] == s[1..][i - 1];
        assert forall x :: x in s[1..] ==> x != s[0];
        Prepended(s[0], Without(s[1..], t));
      }
    }
  }

  lemma Prepended(x: Url, s: seq<Url>)
    requires Distinct(s) && x !in s
    ensures Distinct([x] + s)
  {
    var r := [x] + s;
    forall i, j | 0 <= i < j < |r| ensures r[i] != r[j] {
      assert r[j] == s[j - 1];
      assert i > 0 ==> r[i] == s[i - 1];
    }
  }

  /** Another subscriber's contact of the same address watches `to`. */
  ghost predicate Shared(g: Graph, from: Url, contact: Url, to: Url) {
    exists f: Url :: f != from && Related(g, f, contact, to)
  }

  /** What an update does to the signatures of a presentity. */
  lemma SignIs(s: seq<Signature>, from: Url, contact: Url, id: nat, update: bool)
    requires OneEach(s)
    ensures var r := Sign(s, from, contact, id, update);
      && OneEach(r)
      && (Find(s, contact) < 0 ==> r == [Signature(from, contact, from, id)] + s)
      && (Find(s, contact) >= 0 ==> |r| == |s| && forall i :: 0 <= i < |s| ==>
            r[i].from == s[i].from && r[i].contact == s[i].contact)
  {
  }

  lemma SignedAfter(s: seq<Signature>, r: seq<Signature>, from: Url, contact: Url, x: Signature)
    requires r == [x] + s
    ensures (exists i :: 0 <= i < |r| && r[i].from == from && r[i].contact == contact)
      <==> (x.from == from && x.contact == contact)
           || exists i :: 0 <= i < |s| && s[i].from == from && s[i].contact == contact
  {
    if i :| 0 <= i < |s| && s[i].from == from && s[i].contact == contact {
      assert r[i + 1] == s[i];
    }
    if i :| 0 <= i < |r| && r[i].from == from && r[i].contact == contact {
      assert i > 0 ==> s[i - 1] == r[i];
    }
    assert r[0] == x;
  }

  /** Signatures after an update, when the address is not shared. */
  lemma UpdatedSigned(g: Graph, from: Url, contact: Url, to: Url, id: nat, f: Url, c: Url, t: Url)
    requires Mirrored(g) && Keyed(g) && !Shared(g, from, contact, to)
    ensures Signed(Updated(g, from, contact, to, id), f, c, t)
      <==> Signed(g, f, c, t) || (f == from && c == contact && t == to)
  {
    var h := Updated(g, from, contact, to, id);
    if t == to {
      var s, known := Signatures(g, to), contact in Contacts(g, from) && to in g.presence;
      var r := Sign(s, from, contact, id, known);
      assert Signatures(h, t) == r;
      SignIs(s, from, contact, id, known);
      var k := Find(s, contact);
      if k < 0 {
        SignedAfter(s, r, f, c, Signature(from, contact, from, id));
      } else {
        assert Signed(g, s[k].from, contact, to);
        assert Related(g, s[k].from, contact, to);
        assert s[k].from == from;
        assert r[k].from == s[k].from && r[k].contact == contact;
        SameOwners(s, r, f, c);
      }
    } else {
      assert Signatures(h, t) == Signatures(g, t);
    }
  }

  lemma SameOwners(s: seq<Signature>, r: seq<Signature>, f: Url, c: Url)
    requires |r| == |s| && forall i :: 0 <= i < |s| ==> r[i].from == s[i].from && r[i].contact == s[i].contact
    ensures (exists i :: 0 <= i < |r| && r[i].from == f && r[i].contact == c)
      <==> exists i :: 0 <= i < |s| && s[i].from == f && s[i].contact == c
  {
    if i :| 0 <= i < |s| && s[i].from == f && s[i].contact == c {
      assert r[i].from == f;
    }
    if i :| 0 <= i < |r| && r[i].from == f && r[i].contact == c {
      assert s[i].from == f;
    }
  }

  lemma UpdatedRelated(g: Graph, from: Url, contact: Url, to: Url, id: nat, f: Url, c: Url, t: Url)
    ensures Related(Updated(g, from, contact, to, id), f, c, t)
      <==> Related(g, f, c, t) || (f == from && c == contact && t == to)
  {
  }

  lemma UpdatedKeyed(g: Graph, from: Url, contact: Url, to: Url, id: nat)
    requires Keyed(g)
    ensures Keyed(Updated(g, from, contact, to, id)) && (NoneEmpty(g) ==> NoneEmpty(Updated(g, from, contact, to, id)))
  {
    var h := Updated(g, from, contact, to, id);
    var known := contact in Contacts(g, from) && to in g.presence;
    SignIs(Signatures(g, to), from, contact, id, known);
    forall f, c | f in h.subscribe && c in h.subscribe[f]
      ensures Distinct(h.subscribe[f][c]) && (NoneEmpty(g) ==> h.subscribe[f][c] != [])
    {
      if f == from && c == contact {
        assert Distinct(Watched(g, from, contact));
      }
    }
  }

  /** An update adds its triple to the relation, and keeps everything linked both ways exactly if no
      other subscriber has a contact of the same address at the same presentity. */
  lemma UpdateExact(g: Graph, from: Url, contact: Url, to: Url, id: nat)
    requires Valid(g)
    ensures forall f: Url, c: Url, t: Url ::
      (Related(Updated(g, from, contact, to, id), f, c, t)
       <==> Related(g, f, c, t) || (f == from && c == contact && t == to))
    ensures Valid(Updated(g, from, contact, to, id)) <==> !Shared(g, from, contact, to)
  {
    var h := Updated(g, from, contact, to, id);
    UpdatedKeyed(g, from, contact, to, id);
    forall f: Url, c: Url, t: Url
      ensures Related(h, f, c, t) <==> Related(g, f, c, t) || (f == from && c == contact && t == to)
    {
      UpdatedRelated(g, from, contact, to, id, f, c, t);
    }
    if Shared(g, from, contact, to) {
      SharedBreaks(g, from, contact, to, id);
    } else {
      forall f: Url, c: Url, t: Url ensures Related(h, f, c, t) <==> Signed(h, f, c, t) {
        UpdatedSigned(g, from, contact, to, id, f, c, t);
        assert Related(g, f, c, t) <==> Signed(g, f, c, t);
      }
    }
  }

  /** With a shared address the new contact gets no signature of its own. */
  lemma SharedBreaks(g: Graph, from: Url, contact: Url, to: Url, id: nat)
    requires Valid(g) && Shared(g, from, contact, to)
    ensures var h := Updated(g, from, contact, to, id);
      Related(h, from, contact, to) && !Signed(h, from, contact, to)
  {
    UpdatedRelated(g, from, contact, to, id, from, contact, to);
    var f: Url :| f != from && Related(g, f, contact, to);
    assert Signed(g, f, contact, to);
    var s := Signatures(g, to);
    var i :| 0 <= i < |s| && s[i].from == f && s[i].contact == contact;
    OtherSigned(s, from, contact, id, contact in Contacts(g, from) && to in g.presence, i);
  }

  lemma OtherSigned(s: seq<Signature>, from: Url, contact: Url, id: nat, update: bool, i: nat)
    requires OneEach(s) && i < |s| && s[i].contact == contact && s[i].from != from
    ensures var r := Sign(s, from, contact, id, update);
      forall k :: 0 <= k < |r| ==> !(r[k].from == from && r[k].contact == contact)
  {
    OnlyOne(s, contact, i);
    SignIs(s, from, contact, id, update);
  }

  // Deletion

  lemma UnsignedIs(s: seq<Signature>, contact: Url)
    requires OneEach(s)
    ensures OneEach(Unsigned(s, contact))
    ensures forall x :: x in Unsigned(s, contact) <==> x in s && x.contact != contact
  {
    var i, r := Find(s, contact), Unsigned(s, contact);
    if i >= 0 {
      assert forall k :: 0 <= k < |r| ==> r[k] == s[if k < i then k else k + 1];
      forall x | x in s && x.contact != contact ensures x in r {
        var k :| 0 <= k < |s| && s[k] == x;
        assert r[if k < i then k else k - 1] == x;
      }
    }
  }

  lemma {:induction false} KeptIs(s: seq<Signature>, contacts: map<Url, seq<Url>>, t: Url)
    requires OneEach(s)
    ensures OneEach(Kept(s, contacts, t))
    ensures forall x :: x in Kept(s, contacts, t) <==> x in s && !(x.contact in contacts && t in contacts[x.contact])
  {
    if s != [] {
      assert s == [s[0]] + s[1..];
      assert forall i :: 0 < i < |s| ==> s[i] == s[1..][i - 1];
      KeptIs(s[1..], contacts, t);
      var r := Kept(s[1..], contacts, t);
      assert forall x :: x in r ==> x in s[1..] && x.contact != s[0].contact;
      OneMore(s[0], r);
    }
  }

  lemma OneMore(x: Signature, r: seq<Signature>)
    requires OneEach(r) && forall y :: y in r ==> y.contact != x.contact
    ensures OneEach([x] + r)
  {
    var q := [x] + r;
    forall i, j | 0 <= i < j < |q| ensures q[i].contact != q[j].contact {
      assert q[j] == r[j - 1] && q[j] in r;
      assert i > 0 ==> q[i] == r[i - 1];
    }
  }

  /** Signed, said with membership. */
  lemma SignedIs(g: Graph, f: Url, c: Url, t: Url)
    ensures Signed(g, f, c, t) <==> exists x :: x in Signatures(g, t) && x.from == f && x.contact == c
  {
    var s := Signatures(g, t);
    if x :| x in s && x.from == f && x.contact == c {
      var i :| 0 <= i < |s| && s[i] == x;
      assert s[i].from == f && s[i].contact == c;
    }
    if Signed(g, f, c, t) {
      var i :| 0 <= i < |s| && s[i].from == f && s[i].contact == c;
      assert s[i] in s;
    }
  }

  /** Of the signatures with the address of a contact at a presentity it watches, there is one, its own. */
  lemma OwnSignature(g: Graph, from: Url, contact: Url, to: Url, x: Signature)
    requires Valid(g) && Related(g, from, contact, to) && x in Signatures(g, to) && x.contact == contact
    ensures x.from == from
  {
    var s := Signatures(g, to);
    assert Signed(g, from, contact, to);
    var i :| 0 <= i < |s| && s[i].from == from && s[i].contact == contact;
    var k :| 0 <= k < |s| && s[k] == x;
    OnlyOne(s, contact, i);
    OnlyOne(s, contact, k);
  }

  /** The signatures of a presentity after a deletion. */
  lemma SignaturesAfter(g: Graph, from: Url, contact: Option<Url>, to: Option<Url>, t: Url)
    requires from in g.subscribe
    ensures var s, r := Signatures(g, t), Signatures(Deleted(g, from, contact, to), t);
      if contact.None? then r == Kept(s, g.subscribe[from], t)
      else if t in Watched(g, from, contact.value) && (to.None? || t == to.value) then r == Unsigned(s, contact.value)
      else r == s
  {
    if contact.None? {
      SignaturesKept(g, from, to, t);
    } else if contact.value in g.subscribe[from] {
      if to.None? {
        SignaturesUnlinked(g, from, contact.value, t);
      } else {
        SignaturesUnsubscribed(g, from, contact.value, to.value, t);
      }
    }
  }

  lemma SignaturesKept(g: Graph, from: Url, to: Option<Url>, t: Url)
    requires from in g.subscribe
    ensures Signatures(Deleted(g, from, None, to), t) == Kept(Signatures(g, t), g.subscribe[from], t)
  {
  }

  lemma SignaturesUnlinked(g: Graph, from: Url, contact: Url, t: Url)
    requires from in g.subscribe && contact in g.subscribe[from]
    ensures var s, r := Signatures(g, t), Signatures(Deleted(g, from, Some(contact), None), t);
      r == if t in g.subscribe[from][contact] then Unsigned(s, contact) else s
  {
  }

  lemma SignaturesUnsubscribed(g: Graph, from: Url, contact: Url, to: Url, t: Url)
    requires from in g.subscribe && contact in g.subscribe[from]
    ensures var s, r := Signatures(g, t), Signatures(Deleted(g, from, Some(contact), Some(to)), t);
      r == if to in g.subscribe[from][contact] && t == to then Unsigned(s, contact) else s
  {
  }

  /** What a deletion does to the signatures of a presentity. */
  lemma DeletedSignatures(g: Graph, from: Url, contact: Option<Url>, to: Option<Url>, t: Url)
    requires Valid(g)
    ensures var s, r := Signatures(g, t), Signatures(Deleted(g, from, contact, to), t);
      OneEach(r) && forall x :: x in r <==> x in s && !Gone(g, from, contact, to, x.contact, t)
  {
    var s := Signatures(g, t);
    if from in g.subscribe {
      SignaturesAfter(g, from, contact, to, t);
      if contact.None? {
        KeptIs(s, g.subscribe[from], t);
      } else {
        UnsignedIs(s, contact.value);
      }
    }
  }

  /** A contact address of the subscriber that a deletion takes from a presentity. */
  predicate Gone(g: Graph, from: Url, contact: Option<Url>, to: Option<Url>, c: Url, t: Url) {
    Related(g, from, c, t) && Asked(from, contact, to, from, c, t)
  }

  lemma DeletedSigned(g: Graph, from: Url, contact: Option<Url>, to: Option<Url>, f: Url, c: Url, t: Url)
    requires Valid(g)
    ensures Signed(Deleted(g, from, contact, to), f, c, t) <==> Signed(g, f, c, t) && !Asked(from, contact, to, f, c, t)
  {
    var h := Deleted(g, from, contact, to);
    DeletedSignatures(g, from, contact, to, t);
    SignedIs(g, f, c, t);
    SignedIs(h, f, c, t);
    assert Related(g, f, c, t) <==> Signed(g, f, c, t);
    forall x | x in Signatures(g, t) && x.from == f && x.contact == c && Related(g, from, c, t) ensures f == from {
      OwnSignature(g, from, c, t, x);
    }
  }

  lemma DeletedRelated(g: Graph, from: Url, contact: Option<Url>, to: Option<Url>, f: Url, c: Url, t: Url)
    ensures Related(Deleted(g, from, contact, to), f, c, t)
       <==> Related(g, f, c, t) && !Asked(from, contact, to, f, c, t)
  {
    if from in g.subscribe && contact.Some? && contact.value in g.subscribe[from] {
      DeletedContact(g, from, contact.value, to, f, c, t);
    }
  }

  lemma DeletedContact(g: Graph, from: Url, contact: Url, to: Option<Url>, f: Url, c: Url, t: Url)
    requires from in g.subscribe && contact in g.subscribe[from]
    ensures Related(Deleted(g, from, Some(contact), to), f, c, t)
       <==> Related(g, f, c, t) && !Asked(from, Some(contact), to, f, c, t)
  {
    var d := Deleted(g, from, Some(contact), to);
    assert f != from ==> Watched(d, f, c) == Watched(g, f, c);
    assert f == from && c != contact ==> Watched(d, f, c) == Watched(g, f, c);
    if to.Some? {
      WithoutIs(g.subscribe[from][contact], to.value);
      assert Watched(d, from, contact) == if to.value in Watched(g, from, contact)
        then Without(Watched(g, from, contact), to.value) else Watched(g, from, contact);
    } else {
      assert Watched(d, from, contact) == [];
    }
  }

  /** A deletion takes exactly the triples it asks for out of the relation, and keeps everything linked
      both ways. */
  lemma DeleteExact(g: Graph, from: Url, contact: Option<Url>, to: Option<Url>)
    requires Valid(g)
    ensures forall f: Url, c: Url, t: Url ::
      (Related(Deleted(g, from, contact, to), f, c, t) <==> Related(g, f, c, t) && !Asked(from, contact, to, f, c, t))
    ensures Valid(Deleted(g, from, contact, to))
  {
    var h := Deleted(g, from, contact, to);
    forall f: Url, c: Url, t: Url
      ensures Related(h, f, c, t) <==> Related(g, f, c, t) && !Asked(from, contact, to, f, c, t)
      ensures Related(h, f, c, t) <==> Signed(h, f, c, t)
    {
      DeletedRelated(g, from, contact, to, f, c, t);
      DeletedSigned(g, from, contact, to, f, c, t);
      assert Related(g, f, c, t) <==> Signed(g, f, c, t);
    }
    forall t | t in h.presence ensures OneEach(h.presence[t]) {
      DeletedSignatures(g, from, contact, to, t);
      assert h.presence[t] == Signatures(h, t);
    }
    DeletedLists(g, from, contact, to);
  }

  lemma DeletedLists(g: Graph, from: Url, contact: Option<Url>, to: Option<Url>)
    requires Keyed(g) && NoneEmpty(g)
    ensures var h := Deleted(g, from, contact, to);
      && NoneEmpty(h)
      && forall f, c :: f in h.subscribe && c in h.subscribe[f] ==> Distinct(h.subscribe[f][c])
  {
    if from in g.subscribe && contact.Some? && contact.value in g.subscribe[from] && to.Some? {
      WithoutIs(g.subscribe[from][contact.value], to.value);
    }
  }

  /** The presentity is known, but has no signature. */
  predicate Bare(g: Graph, t: Url) {
    t in g.presence && g.presence[t] == []
  }

  /** A deletion leaves bare what was bare, and those presentities whose every signature it takes without
      naming the presentity: one that names the contact and the presentity leaves no other. */
  lemma BareExact(g: Graph, from: Url, contact: Option<Url>, to: Option<Url>, t: Url)
    requires Valid(g)
    ensures Bare(Deleted(g, from, contact, to), t)
       <==> t in g.presence && (Bare(g, t) || contact.None? || to.None?)
            && forall x :: x in g.presence[t] ==> Gone(g, from, contact, to, x.contact, t)
  {
    DeletedSignatures(g, from, contact, to, t);
    var h := Deleted(g, from, contact, to);
    assert t in h.presence ==> h.presence[t] == Signatures(h, t);
    if t in g.presence && g.presence[t] != [] {
      assert g.presence[t] == Signatures(g, t) && g.presence[t][0] in g.presence[t];
    }
    if t in h.presence && h.presence[t] != [] {
      assert h.presence[t][0] in Signatures(h, t);
    }
  }

  /** Some contact watches the presentity. */
  ghost predicate Watching(g: Graph, t: Url) {
    exists f: Url, c: Url :: Related(g, f, c, t)
  }

  /** A presentity has a signature exactly if a contact watches it. */
  lemma SignedIfWatched(g: Graph, t: Url)
    requires Mirrored(g)
    ensures Signatures(g, t) != [] <==> Watching(g, t)
  {
    if Signatures(g, t) != [] {
      var x := Signatures(g, t)[0];
      assert Signed(g, x.from, x.contact, t);
      assert Related(g, x.from, x.contact, t);
    }
    if f: Url, c: Url :| Related(g, f, c, t) {
      assert Signed(g, f, c, t);
    }
  }

  /** A deletion forgets a presentity only if it names it, and takes its last triple. */
  lemma Forgotten(g: Graph, from: Url, contact: Option<Url>, to: Option<Url>, t: Url)
    requires Valid(g)
    ensures var h := Deleted(g, from, contact, to);
      var last := contact.Some? && to == Some(t) && Related(g, from, contact.value, t) && !Watching(h, t);
      t in h.presence <==> t in g.presence && !last
  {
    var h := Deleted(g, from, contact, to);
    DeleteExact(g, from, contact, to);
    SignedIfWatched(h, t);
    if contact.Some? && to == Some(t) && Related(g, from, contact.value, t) {
      assert Signed(g, from, contact.value, t);
      SignaturesUnsubscribed(g, from, contact.value, t, t);
      var s := Signatures(g, t);
      var i :| 0 <= i < |s| && s[i].from == from && s[i].contact == contact.value;
      OnlyOne(s, contact.value, i);
    }
  }

  // Notifications

  /** An unsigned counter of 32 bits, and how "%i" prints it. */
  type Counter = n: int | 0 <= n < 0x1_0000_0000

  function Printed(n: Counter): int {
    if n < 0x8000_0000 then n else n - 0x1_0000_0000
  }

  function Advanced(n: Counter, k: nat): Counter {
    (n + k) % 0x1_0000_0000
  }

  lemma AdvancedMore(n: Counter, k: nat)
    ensures var c := Advanced(n, k); Advanced(n, k + 1) == if c == 0xFFFF_FFFF then 0 else c + 1
  {
  }

  /** The signature a notification of an update goes by: the one of that address at the presentity. */
  function Chosen(g: Graph, from: Url, contact: Url, to: Url, id: nat): Signature {
    var s := Signatures(Updated(g, from, contact, to, id), to);
    var i := Find(s, contact);
    if i < 0 then Signature(from, contact, from, id) else s[i]
  }

  /** With no shared address an update notifies its own subscriber, with its own id. */
  lemma ChosenOwn(g: Graph, from: Url, contact: Url, to: Url, id: nat)
    requires Valid(g) && !Shared(g, from, contact, to)
    ensures Chosen(g, from, contact, to, id) == Signature(from, contact, from, id)
    ensures Chosen(g, from, contact, to, id) in Signatures(Updated(g, from, contact, to, id), to)
  {
    var s := Signatures(g, to);
    var known := contact in Contacts(g, from) && to in g.presence;
    var r := Sign(s, from, contact, id, known);
    assert Signatures(Updated(g, from, contact, to, id), to) == r;
    SignIs(s, from, contact, id, known);
    var k := Find(s, contact);
    if k < 0 {
      OnlyOne(r, contact, 0);
    } else {
      assert Signed(g, s[k].from, contact, to);
      assert Related(g, s[k].from, contact, to);
      OnlyOne(r, contact, k);
    }
  }

  /** What a change of the presentity sends: to each of its signatures in turn. */
  function Notes(s: seq<Signature>, to: Url, sequence: Counter, open: bool): (r: seq<Note>)
    ensures |r| == |s|
  {
    seq(|s|, (i: nat) requires i < |s| =>
      Note(s[i].contact, s[i].url, to, s[i].id, Printed(Advanced(sequence, i + 1)), open))
  }

  /** Each contact that watches the presentity is notified exactly once, and nobody else. */
  lemma NotifiedOnce(g: Graph, to: Url, f: Url, c: Url)
    requires Valid(g)
    ensures var s := Signatures(g, to);
      && (Related(g, f, c, to) <==> exists i :: 0 <= i < |s| && s[i].from == f && s[i].contact == c)
      && forall i, j :: 0 <= i < |s| && 0 <= j < |s| && s[i].contact == c && s[j].contact == c ==> i == j
  {
    assert Related(g, f, c, to) <==> Signed(g, f, c, to);
  }

  /** The numbers that `k` notifications print go up exactly while they do not pass the largest signed
      number. */
  lemma NumbersUp(sequence: Counter, k: nat)
    ensures (forall i, j :: 1 <= i < j <= k ==> Printed(Advanced(sequence, i)) < Printed(Advanced(sequence, j)))
      <==> k < 2 || Printed(Advanced(sequence, 1)) + k <= 0x8000_0000
  {
    var p := Printed(Advanced(sequence, 1));
    if p + k <= 0x8000_0000 {
      forall i | 1 <= i <= k ensures Printed(Advanced(sequence, i)) == p + i - 1 {
      }
    } else if k >= 2 {
      var i := 0x8000_0000 - p;
      assert Printed(Advanced(sequence, i)) == 0x7FFF_FFFF;
      assert Printed(Advanced(sequence, i + 1)) == -0x8000_0000;
    }
  }

  /** Two notifications of which the second prints the smaller number. */
  lemma FallingExample()
    ensures Printed(Advanced(0x7FFF_FFFE, 1)) == 0x7FFF_FFFF && Printed(Advanced(0x7FFF_FFFE, 2)) == -0x8000_0000
  {
  }

  lemma {:induction false} SameFind(s: seq<Signature>, r: seq<Signature>, contact: Url)
    requires |r| == |s| && forall i :: 0 <= i < |s| ==> r[i].contact == s[i].contact
    ensures Find(r, contact) == Find(s, contact)
  {
    if s != [] {
      SameFind(s[1..], r[1..], contact);
    }
  }

  lemma UpdatedInSteps(g: Graph, h: Graph, from: Url, contact: Url, to: Url, id: nat)
    requires var known := contact in Contacts(g, from) && to in g.presence;
      h.presence == g.presence[to := Signatures(g, to)][to := Sign(Signatures(g, to), from, contact, id, known)]
    requires var watched, contacts := Watched(g, from, contact), Contacts(g, from);
      var next := if to in watched then watched else watched + [to];
      var entered := contacts[contact := watched];
      h.subscribe == g.subscribe[from := entered][from := entered[contact := next]]
    ensures h == Updated(g, from, contact, to, id)
  {
    var next := if to in Watched(g, from, contact) then Watched(g, from, contact) else Watched(g, from, contact) + [to];
    var contacts := Contacts(g, from);
    assert contacts[contact := Watched(g, from, contact)][contact := next] == contacts[contact := next];
  }

  // Runs

  datatype Call =
    | Subscribing(from: Url, contact: Url, to: Url, id: nat)
    | Dropping(from: Url, of: Option<Url>, at: Option<Url>)

  function Made(g: Graph, call: Call): Graph {
    match call
    case Subscribing(from, contact, to, id) => Updated(g, from, contact, to, id)
    case Dropping(from, contact, to) => Deleted(g, from, contact, to)
  }

  /** The links after these calls. */
  function After(calls: seq<Call>): Graph {
    if calls == [] then Graph(map[], map[]) else Made(After(calls[..|calls| - 1]), calls[|calls| - 1])
  }

  /** The last call about the triple subscribed it. */
  predicate Held(calls: seq<Call>, f: Url, c: Url, t: Url) {
    calls != [] &&
    match calls[|calls| - 1]
    case Subscribing(from, contact, to, id) =>
      (f == from && c == contact && t == to) || Held(calls[..|calls| - 1], f, c, t)
    case Dropping(from, contact, to) => !Asked(from, contact, to, f, c, t) && Held(calls[..|calls| - 1], f, c, t)
  }

  predicate SameContact(x: Call, y: Call) {
    x.Subscribing? && y.Subscribing? && x.contact == y.contact
  }

  /** Each contact address is used by one subscriber. */
  ghost predicate OneUser(calls: seq<Call>) {
    forall i, j :: 0 <= i < j < |calls| && SameContact(calls[i], calls[j]) ==> calls[i].from == calls[j].from
  }

  lemma {:induction false} HeldFrom(calls: seq<Call>, f: Url, c: Url, t: Url)
    requires Held(calls, f, c, t)
    ensures exists i :: 0 <= i < |calls| && calls[i].Subscribing? && calls[i].from == f && calls[i].contact == c
  {
    var n := |calls| - 1;
    if !(calls[n].Subscribing? && calls[n].from == f && calls[n].contact == c && calls[n].to == t) {
      HeldFrom(calls[..n], f, c, t);
      var i :| 0 <= i < n && calls[..n][i].Subscribing? && calls[..n][i].from == f && calls[..n][i].contact == c;
      assert calls[i] == calls[..n][i];
    }
  }

  /** In every run in which no two subscribers use the same contact address, the links stay mirrored, with
      no subscriber or contact left empty, and relate exactly the triples last subscribed. */
  lemma {:induction false} RunRefines(calls: seq<Call>)
    requires OneUser(calls)
    ensures Valid(After(calls))
    ensures forall f: Url, c: Url, t: Url :: Related(After(calls), f, c, t) <==> Held(calls, f, c, t)
  {
    if calls != [] {
      var n := |calls| - 1;
      var g := After(calls[..n]);
      RunRefines(calls[..n]);
      match calls[n] {
        case Subscribing(from, contact, to, id) =>
          forall f: Url | f != from && Related(g, f, contact, to) ensures false {
            HeldFrom(calls[..n], f, contact, to);
          }
          UpdateExact(g, from, contact, to, id);
        case Dropping(from, contact, to) =>
          DeleteExact(g, from, contact, to);
      }
      forall f: Url, c: Url, t: Url ensures Related(After(calls), f, c, t) <==> Held(calls, f, c, t) {
        assert Related(g, f, c, t) <==> Held(calls[..n], f, c, t);
      }
    }
  }

  /** The presentity was subscribed to, and not forgotten since: no deletion named it and took its last
      triple. */
  ghost predicate Known(calls: seq<Call>, t: Url) {
    calls != [] &&
    match calls[|calls| - 1]
    case Subscribing(from, contact, to, id) => t == to || Known(calls[..|calls| - 1], t)
    case Dropping(from, contact, to) =>
      var was := calls[..|calls| - 1];
      Known(was, t)
      && !(contact.Some? && to == Some(t) && Held(was, from, contact.value, t) && !HeldBySome(calls, t))
  }

  ghost predicate HeldBySome(calls: seq<Call>, t: Url) {
    exists f: Url, c: Url :: Held(calls, f, c, t)
  }

  /** In every such run the presentities kept are those known, and bare are those of them that nobody
      watches. */
  lemma {:induction false} RunBare(calls: seq<Call>, t: Url)
    requires OneUser(calls)
    ensures t in After(calls).presence <==> Known(calls, t)
    ensures Bare(After(calls), t) <==> Known(calls, t) && !HeldBySome(calls, t)
  {
    RunRefines(calls);
    SignedIfWatched(After(calls), t);
    WatchedIfHeld(calls, t);
    if calls != [] {
      var n := |calls| - 1;
      RunBare(calls[..n], t);
      RunRefines(calls[..n]);
      if calls[n].Dropping? {
        Forgotten(After(calls[..n]), calls[n].from, calls[n].of, calls[n].at, t);
      }
    }
  }

  lemma WatchedIfHeld(calls: seq<Call>, t: Url)
    requires forall f: Url, c: Url, u: Url :: Related(After(calls), f, c, u) <==> Held(calls, f, c, u)
    ensures Watching(After(calls), t) <==> HeldBySome(calls, t)
  {
    if f: Url, c: Url :| Held(calls, f, c, t) {
      assert Related(After(calls), f, c, t);
    }
    if f: Url, c: Url :| Related(After(calls), f, c, t) {
      assert Held(calls, f, c, t);
    }
  }

  lemma AfterMore(calls: seq<Call>, call: Call)
    ensures After([]) == Graph(map[], map[])
    ensures After(calls + [call]) == Made(After(calls), call)
  {
    assert (calls + [call])[..|calls|] == calls;
  }

  lemma FirstCall(from: Url, contact: Url, to: Url, id: nat)
    ensures After([Subscribing(from, contact, to, id)])
         == Graph(map[from := map[contact := [to]]], map[to := [Signature(from, contact, from, id)]])
  {
    var call := Subscribing(from, contact, to, id);
    AfterMore([], call);
    assert [] + [call] == [call];
    var g := Updated(Graph(map[], map[]), from, contact, to, id);
    var none: seq<Url> := [];
    assert none + [to] == [to];
    assert g.subscribe[from][contact] == [to];
    assert g.subscribe[from] == map[contact := [to]];
    assert g.presence[to] == [Signature(from, contact, from, id)];
  }

  /** Two subscribers with one contact address at one presentity: the second gets no signature. */
  lemma SharedExample()
    ensures var g := After([Subscribing(1, 7, 9, 0), Subscribing(2, 7, 9, 1)]);
      Related(g, 2, 7, 9) && Signatures(g, 9) == [Signature(1, 7, 1, 0)]
  {
    FirstCall(1, 7, 9, 0);
    AfterMore([Subscribing(1, 7, 9, 0)], Subscribing(2, 7, 9, 1));
    var s := [Signature(1, 7, 1, 0)];
    assert Find(s, 7) == 0 && Sign(s, 2, 7, 1, false) == s;
  }

  /** A subscriber that is dropped as a whole leaves its presentity behind. */
  lemma BareExample()
    ensures After([Subscribing(1, 7, 9, 0), Dropping(1, None, None)]).presence == map[9 := []]
  {
    FirstCall(1, 7, 9, 0);
    AfterMore([Subscribing(1, 7, 9, 0)], Dropping(1, None, None));
    var s, contacts: map<Url, seq<Url>> := [Signature(1, 7, 1, 0)], map[7 := [9]];
    assert Kept(s, contacts, 9) == Kept(s[1..], contacts, 9) == [];
  }

  // Freeing

  lemma {:induction false} KeptSame(s: seq<Signature>, m: map<Url, seq<Url>>, n: map<Url, seq<Url>>, t: Url)
    requires forall x :: x in s ==> ((x.contact in m && t in m[x.contact]) <==> (x.contact in n && t in n[x.contact]))
    ensures Kept(s, m, t) == Kept(s, n, t)
  {
    if s != [] {
      assert s[0] in s && forall x :: x in s[1..] ==> x in s;
      KeptSame(s[1..], m, n, t);
    }
  }

  lemma {:induction false} KeptAll(s: seq<Signature>, t: Url)
    ensures Kept(s, map[], t) == s
  {
    if s != [] {
      KeptAll(s[1..], t);
    }
  }

  lemma KeptCons(x: Signature, r: seq<Signature>, contacts: map<Url, seq<Url>>, t: Url)
    ensures Kept([x] + r, contacts, t)
         == (if x.contact in contacts && t in contacts[x.contact] then [] else [x]) + Kept(r, contacts, t)
  {
    assert ([x] + r)[1..] == r;
  }

  /** Freeing one contact first leaves the others to free. */
  lemma {:induction false} KeptStep(s: seq<Signature>, contacts: map<Url, seq<Url>>, c: Url, t: Url)
    requires OneEach(s) && c in contacts
    ensures Kept(if t in contacts[c] then Unsigned(s, c) else s, contacts - {c}, t) == Kept(s, contacts, t)
  {
    if t !in contacts[c] {
      KeptSame(s, contacts - {c}, contacts, t);
    } else if s != [] {
      assert forall i :: 0 < i < |s| ==> s[1..][i - 1] == s[i];
      if s[0].contact == c {
        assert Unsigned(s, c) == s[1..];
        assert forall x :: x in s[1..] ==> x.contact != c;
        KeptSame(s[1..], contacts - {c}, contacts, t);
      } else {
        KeptStep(s[1..], contacts, c, t);
        UnsignedRest(s, c);
        KeptCons(s[0], Unsigned(s[1..], c), contacts - {c}, t);
      }
    }
  }

  lemma CutInRest(s: seq<Signature>, r: seq<Signature>, i: nat)
    requires i < |r| && |s| == |r| + 1 && s[1..] == r
    ensures s[..i + 1] + s[i + 2..] == [s[0]] + (r[..i] + r[i + 1..])
  {
    var left, right := s[..i + 1] + s[i + 2..], [s[0]] + (r[..i] + r[i + 1..]);
    forall k | 0 <= k < |r| ensures left[k] == right[k] {
      assert k > 0 ==> s[k] == r[k - 1];
      assert s[k + 1] == r[k];
    }
  }

  lemma UnsignedRest(s: seq<Signature>, c: Url)
    requires s != [] && s[0].contact != c
    ensures Unsigned(s, c) == [s[0]] + Unsigned(s[1..], c)
  {
    var r := s[1..];
    var i := Find(r, c);
    assert Find(s, c) == if i < 0 then -1 else i + 1;
    if i >= 0 {
      CutInRest(s, r, i);
    } else {
      assert s == [s[0]] + r;
    }
  }

  lemma UnlinkedAllStep(p: map<Url, seq<Signature>>, contacts: map<Url, seq<Url>>, c: Url)
    requires c in contacts && forall t :: t in p ==> OneEach(p[t])
    ensures UnlinkedAll(Unlinked(p, contacts[c], c), contacts - {c}) == UnlinkedAll(p, contacts)
    ensures forall t :: t in p ==> OneEach(Unlinked(p, contacts[c], c)[t])
  {
    forall t | t in p
      ensures Kept(Unlinked(p, contacts[c], c)[t], contacts - {c}, t) == Kept(p[t], contacts, t)
      ensures OneEach(Unlinked(p, contacts[c], c)[t])
    {
      KeptStep(p[t], contacts, c, t);
      UnsignedIs(p[t], c);
    }
  }

  lemma UnlinkedNone(p: map<Url, seq<Signature>>)
    ensures UnlinkedAll(p, map[]) == p
  {
    forall t | t in p ensures Kept(p[t], map[], t) == p[t] {
      KeptAll(p[t], t);
    }
  }

  lemma UnlinkedNothing(p: map<Url, seq<Signature>>, contact: Url)
    ensures Unlinked(p, [], contact) == p
  {
  }

  lemma HasKey(m: map<Url, seq<Url>>)
    requires m != map[]
    ensures exists c :: c in m
  {
    assert (forall c :: c !in m) ==> m == map[];
  }

  /** A contact dropped in two steps: `g` before, `h` once the presentity, if one is named, is off, `k` at
      the end. */
  lemma DroppedIs(g: Graph, h: Graph, k: Graph, from: Url, contact: Url, to: Option<Url>)
    requires from in g.subscribe && contact in g.subscribe[from]
    requires to.None? ==> h == g && k.presence == Unlinked(g.presence, g.subscribe[from][contact], contact)
    requires to.Some? ==>
      && to.value in g.subscribe[from][contact] && Without(g.subscribe[from][contact], to.value) == []
      && h.subscribe == g.subscribe[from := g.subscribe[from][contact := []]]
      && k.presence == Unsubscribed(g.presence, contact, to.value)
    requires from in h.subscribe && k.subscribe == h.subscribe[from := h.subscribe[from] - {contact}]
    ensures from in k.subscribe
    ensures k.subscribe[from] != map[] ==> k == Deleted(g, from, Some(contact), to)
    ensures k.subscribe[from] == map[] ==>
      Graph(k.subscribe - {from}, k.presence) == Deleted(g, from, Some(contact), to)
  {
    assert k.subscribe[from] == g.subscribe[from] - {contact};
    assert k.subscribe == g.subscribe[from := g.subscribe[from] - {contact}];
    assert k.subscribe - {from} == g.subscribe - {from};
  }

  // The operations

  class Notify {
    var subscribe: map<Url, map<Url, seq<Url>>>
    var presence: map<Url, seq<Signature>>
    var sequence: Counter
    const status: Url -> bool

    ghost function Links(): Graph
      reads this
    {
      Graph(subscribe, presence)
    }

    constructor (status: Url -> bool)
      ensures Links() == Graph(map[], map[]) && Valid(Links()) && sequence == 0 && this.status == status
    {
      subscribe, presence, sequence := map[], map[], 0;
      this.status := status;
    }

    predicate Open(to: Url, online: int) {
      online == 1 || (online == -1 && status(to))
    }

    /** notify_update; a missing argument is refused. */
    method Update(from: Option<Url>, contact: Option<Url>, to: Option<Url>, id: Option<nat>, online: int)
      returns (note: Option<Note>)
      modifies this`subscribe, this`presence, this`sequence
      ensures note.Some? <==> from.Some? && contact.Some? && to.Some? && id.Some?
      ensures note.None? ==> Links() == old(Links()) && sequence == old(sequence)
      ensures note.Some? ==>
        && Links() == Updated(old(Links()), from.value, contact.value, to.value, id.value)
        && sequence == Advanced(old(sequence), 1)
        && var s := Chosen(old(Links()), from.value, contact.value, to.value, id.value);
           note.value == Note(contact.value, s.url, to.value, s.id, Printed(sequence), Open(to.value, online))
    {
      if from.None? || contact.None? || to.None? || id.None? {
        return None;
      }
      var s := Link(from.value, contact.value, to.value, id.value);
      sequence := if sequence == 0xFFFF_FFFF then 0 else sequence + 1;
      note := Some(Note(contact.value, s.url, to.value, s.id, Printed(sequence), Open(to.value, online)));
    }

    /** Everything an update enters or renews. */
    method Link(from: Url, contact: Url, to: Url, id: nat) returns (s: Signature)
      modifies this`subscribe, this`presence
      ensures Links() == Updated(old(Links()), from, contact, to, id)
      ensures s == Chosen(old(Links()), from, contact, to, id)
    {
      ghost var g := Links();
      var update := Enter(from, contact, to);
      s := SignAt(from, contact, to, id, update);
      Watch(from, contact, to);
      UpdatedInSteps(g, Links(), from, contact, to, id);
    }

    /** The signature of the address at the presentity: entered in front, or found, and then renewed on
        an update. */
    method SignAt(from: Url, contact: Url, to: Url, id: nat, update: bool) returns (s: Signature)
      requires to in presence
      modifies this`presence
      ensures presence == old(presence)[to := Sign(old(presence[to]), from, contact, id, update)]
      ensures var i := Find(presence[to], contact); i >= 0 && s == presence[to][i]
    {
      var i := Find(presence[to], contact);
      if i < 0 {
        presence := presence[to := [Signature(from, contact, from, id)] + presence[to]];
        i := 0;
      } else if update {
        ghost var before := presence[to];
        presence := presence[to := presence[to][i := presence[to][i].(url := from, id := id)]];
        SameFind(before, presence[to], contact);
      }
      s := presence[to][i];
    }

    /** The presentity goes to the end of those the contact watches, unless it is one. */
    method Watch(from: Url, contact: Url, to: Url)
      requires from in subscribe && contact in subscribe[from]
      modifies this`subscribe
      ensures var watched := old(subscribe[from][contact]);
        var next := if to in watched then watched else watched + [to];
        subscribe == old(subscribe)[from := old(subscribe[from])[contact := next]]
    {
      if to !in subscribe[from][contact] {
        subscribe := subscribe[from := subscribe[from][contact := subscribe[from][contact] + [to]]];
      } else {
        assert subscribe[from] == subscribe[from][contact := subscribe[from][contact]];
      }
    }

    /** The subscriber, its contact and the presentity are looked up, or entered; `update` says that none
        was new. */
    method Enter(from: Url, contact: Url, to: Url) returns (update: bool)
      modifies this`subscribe, this`presence
      ensures update <==> contact in Contacts(old(Links()), from) && to in old(presence)
      ensures presence == old(presence)[to := Signatures(old(Links()), to)]
      ensures var watched := Watched(old(Links()), from, contact);
        subscribe == old(subscribe)[from := Contacts(old(Links()), from)[contact := watched]]
    {
      update := true;
      if from !in subscribe {
        subscribe, update := subscribe[from := map[]], false;
      }
      if contact !in subscribe[from] {
        subscribe, update := subscribe[from := subscribe[from][contact := []]], false;
      }
      if to !in presence {
        presence, update := presence[to := []], false;
      }
      ghost var g := old(Links());
      assert subscribe[from] == Contacts(g, from)[contact := Watched(g, from, contact)];
    }

    /** contact_free: the presentities are taken from the end. */
    method ContactFree(watched: seq<Url>, contact: Url)
      requires Distinct(watched)
      modifies this`presence
      ensures presence == Unlinked(old(presence), watched, contact)
    {
      var n := |watched|;
      while n > 0
        invariant 0 <= n <= |watched|
        invariant presence == Unlinked(old(presence), watched[n..], contact)
      {
        n := n - 1;
        var t := watched[n];
        assert watched[n..] == [t] + watched[n + 1..];
        assert t !in watched[n + 1..];
        if t in presence {
          presence := presence[t := Unsigned(presence[t], contact)];
        }
      }
      assert watched[0..] == watched;
    }

    /** subscribe_free: its contacts are freed one by one. */
    method SubscribeFree(contacts: map<Url, seq<Url>>)
      requires forall c :: c in contacts ==> Distinct(contacts[c])
      requires forall t :: t in presence ==> OneEach(presence[t])
      modifies this`presence
      ensures presence == UnlinkedAll(old(presence), contacts)
    {
      var rest := contacts;
      while rest != map[]
        invariant forall c :: c in rest ==> Distinct(rest[c])
        invariant forall t :: t in presence ==> OneEach(presence[t])
        invariant UnlinkedAll(presence, rest) == UnlinkedAll(old(presence), contacts)
        decreases |rest|
      {
        HasKey(rest);
        var c :| c in rest;
        UnlinkedAllStep(presence, rest, c);
        ContactFree(rest[c], c);
        rest := rest - {c};
      }
      UnlinkedNone(presence);
    }

    /** notify_delete; a missing subscriber is refused. */
    method Delete(from: Option<Url>, contact: Option<Url>, to: Option<Url>) returns (ok: bool)
      requires Valid(Links())
      modifies this`subscribe, this`presence
      ensures ok <==> from.Some?
      ensures Links() == if ok then Deleted(old(Links()), from.value, contact, to) else old(Links())
    {
      if from.None? {
        return false;
      }
      var f := from.value;
      if contact.Some? {
        var last := DeleteContact(f, contact.value, to);
        if !last {
          return true;
        }
      }
      if f in subscribe {
        var contacts := subscribe[f];
        subscribe := subscribe - {f};
        UnlinkedNone(presence);
        SubscribeFree(contacts);
      }
      ok := true;
    }

    /** The part of notify_delete that a named contact runs; is its subscriber then left without any? */
    method DeleteContact(from: Url, contact: Url, to: Option<Url>) returns (last: bool)
      requires Valid(Links())
      modifies this`subscribe, this`presence
      ensures !last ==> Links() == Deleted(old(Links()), from, Some(contact), to)
      ensures last ==> from in subscribe && subscribe[from] == map[]
                       && Deleted(old(Links()), from, Some(contact), to) == Graph(subscribe - {from}, presence)
      ensures last ==> forall t :: t in presence ==> OneEach(presence[t])
    {
      if from !in subscribe || contact !in subscribe[from] {
        return false;
      }
      ghost var g := Links();
      DeleteExact(g, from, Some(contact), to);
      if to.Some? {
        if to.value !in subscribe[from][contact] {
          return false;
        }
        WithoutIs(subscribe[from][contact], to.value);
        Unsign(from, contact, to.value);
        if subscribe[from][contact] != [] {
          return false;
        }
        UnlinkedNothing(presence, contact);
      }
      ghost var h := Links();
      var left := ContactGet(from, contact);
      last := !left;
      DroppedIs(g, h, Links(), from, contact, to);
    }

    /** The presentity goes from the contact, and the signature of the contact from the presentity, which
        goes with its last one. */
    method Unsign(from: Url, contact: Url, to: Url)
      requires from in subscribe && contact in subscribe[from]
      modifies this`subscribe, this`presence
      ensures var rest := Without(old(subscribe[from][contact]), to);
        subscribe == old(subscribe)[from := old(subscribe[from])[contact := rest]]
      ensures presence == Unsubscribed(old(presence), contact, to)
    {
      subscribe := subscribe[from := subscribe[from][contact := Without(subscribe[from][contact], to)]];
      SignatureGet(contact, to);
    }

    method SignatureGet(contact: Url, to: Url)
      modifies this`presence
      ensures presence == Unsubscribed(old(presence), contact, to)
    {
      if to in presence && Find(presence[to], contact) >= 0 {
        var rest := Unsigned(presence[to], contact);
        presence := if rest == [] then presence - {to} else presence[to := rest];
      }
    }

    /** The contact is taken out and freed; are there others left? */
    method ContactGet(from: Url, contact: Url) returns (left: bool)
      requires from in subscribe && contact in subscribe[from] && Distinct(subscribe[from][contact])
      modifies this`subscribe, this`presence
      ensures subscribe == old(subscribe)[from := old(subscribe[from]) - {contact}]
      ensures presence == Unlinked(old(presence), old(subscribe[from][contact]), contact)
      ensures left <==> old(subscribe[from]) - {contact} != map[]
    {
      var watched := subscribe[from][contact];
      subscribe := subscribe[from := subscribe[from] - {contact}];
      ContactFree(watched, contact);
      left := subscribe[from] != map[];
    }

    /** notify_change: one notification to each signature of the presentity, newest first. */
    method Change(to: Option<Url>, online: int) returns (notes: seq<Note>)
      modifies this`sequence
      ensures to.None? ==> notes == []
      ensures to.Some? ==>
        notes == Notes(Signatures(Links(), to.value), to.value, old(sequence), Open(to.value, online))
      ensures sequence == Advanced(old(sequence), |notes|)
    {
      notes := [];
      if to.None? || to.value !in presence {
        return;
      }
      var s, t, open := presence[to.value], to.value, Open(to.value, online);
      ghost var all := Notes(s, t, sequence, open);
      while |notes| < |s|
        invariant |notes| <= |s| == |all| && notes == all[..|notes|]
        invariant sequence == Advanced(old(sequence), |notes|)
      {
        var x := s[|notes|];
        AdvancedMore(old(sequence), |notes|);
        sequence := if sequence == 0xFFFF_FFFF then 0 else sequence + 1;
        notes := notes + [Note(x.contact, x.url, t, x.id, Printed(sequence), open)];
      }
    }
  }
}
