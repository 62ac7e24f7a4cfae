/** The entity tag as a cache validator over time (section 8.8.3 of RFC 9110). */
module ETag {
  import opened Common
  import opened ConfigDomain
  import opened ConfigRepository
  import opened Evaluation
  import Protocol
  import ProtocolTheorems
  import Targeting
  import Text

  lemma RowsAreEncodable(st: Store, scope: Scope, rows: seq<Row>)
    requires Protocol.StoreInv(st) && PublishedRows(st, scope, rows)
    ensures forall i :: 0 <= i < |rows| ==> Encodable(rows[i])
  {
    forall i | 0 <= i < |rows| ensures Encodable(rows[i]) {
      assert rows[i] in rows;
    }
  }

  /** In a growing store a key of a scope keeps its configuration, and a numbered version its value. */
  lemma RowsAgreeOverTime(st: Store, later: Store, scope: Scope, r: Row, q: Row)
    requires Protocol.StoreInv(st) && Protocol.StoreInv(later) && Protocol.StoreGrows(st, later)
    requires PublishedRow(st, scope, r) && PublishedRow(later, scope, q) && r.key == q.key
    ensures r.id == q.id && (r.version == q.version ==> r.value == q.value)
  {
    OneConfigPerKey(later, r.id, q.id);
    assert Protocol.Known(later.versions, st.versions[VersionRef(r.id, r.version)]);
  }

  lemma RowListsAgree(st: Store, later: Store, scope: Scope, s: seq<Row>, t: seq<Row>)
    requires Protocol.StoreInv(st) && Protocol.StoreInv(later) && Protocol.StoreGrows(st, later)
    requires forall r :: r in s ==> PublishedRow(st, scope, r)
    requires forall r :: r in t ==> PublishedRow(later, scope, r)
    ensures Coherent(s, t) && Coherent(t, s)
  {
    forall i, j | 0 <= i < |s| && 0 <= j < |t| && s[i].key == t[j].key
      ensures s[i].id == t[j].id && (s[i].version == t[j].version ==> s[i].value == t[j].value)
    {
      RowsAgreeOverTime(st, later, scope, s[i], t[j]);
    }
  }

  /**
   Two answers for the same scope, given at any two times of a run and for any selection of its
   published versions, carry equal tags exactly when they list the same keys, versions and values. By
   `ServedArePublished` this covers every subject and every clock.
   */
  lemma EqualTagsMeanEqualAnswers(
    actions: seq<Protocol.Action>, n: nat, scope: Scope, sign: Sign,
    rows: seq<Row>, a: Response, rows': seq<Row>, b: Response)
    requires n <= |actions| && Injective(sign)
    requires PublishedRows(Protocol.Exec(actions[..n]).shared.store, scope, rows) && Answers(rows, sign, a)
    requires PublishedRows(Protocol.Exec(actions).shared.store, scope, rows') && Answers(rows', sign, b)
    ensures a.etag == b.etag <==> Triples(a.configs) == Triples(b.configs)
  {
    Protocol.Reachable(actions[..n]);
    Protocol.Reachable(actions);
    ProtocolTheorems.LaterExtendsEarlier(actions, n);
    StoresGiveEqualTags(Protocol.Exec(actions[..n]).shared.store, Protocol.Exec(actions).shared.store,
                        scope, sign, rows, a, rows', b);
  }

  /** What an evaluation serves, to any subject and at any readings of the clock, are published rows. */
  lemma ServedArePublished(
    st: Store, scope: Scope, subject: Targeting.Subject, clock: Clock, hash: Targeting.Hash, rows: seq<Row>)
    requires ServedRows(st, scope, subject, clock, hash, rows)
    ensures PublishedRows(st, scope, rows)
  {
  }

  lemma StoresGiveEqualTags(
    st: Store, later: Store, scope: Scope, sign: Sign, rows: seq<Row>, a: Response, rows': seq<Row>, b: Response)
    requires Protocol.StoreInv(st) && Protocol.StoreInv(later) && Protocol.StoreGrows(st, later) && Injective(sign)
    requires PublishedRows(st, scope, rows) && Answers(rows, sign, a)
    requires PublishedRows(later, scope, rows') && Answers(rows', sign, b)
    ensures a.etag == b.etag <==> Triples(a.configs) == Triples(b.configs)
  {
    RowsAreEncodable(st, scope, rows);
    RowsAreEncodable(later, scope, rows');
    RowListsAgree(st, later, scope, rows, rows');
    EqualSeedsMeanEqualRows(rows, rows');
    EqualAnswersMeanEqualRows(rows, rows', sign, a, b);
    TagsIdentifySeeds(sign, Seed(rows), Seed(rows'));
  }

  lemma TagsIdentifySeeds(sign: Sign, x: string, y: string)
    requires Injective(sign)
    ensures "\\\"" + sign(x) + "\\\"" == "\\\"" + sign(y) + "\\\"" <==> x == y
  {
    var s, t := "\\\"" + sign(x) + "\\\"", "\\\"" + sign(y) + "\\\"";
    assert s[2..|s| - 2] == sign(x) && t[2..|t| - 2] == sign(y);
  }

  /** The same scope has the same answer whichever arrangement of the store was read. */
  lemma RowsAreDetermined(
    st: Store, scope: Scope, subject: Targeting.Subject, clock: Clock, hash: Targeting.Hash, s: seq<Row>, t: seq<Row>)
    requires ServedRows(st, scope, subject, clock, hash, s) && ServedRows(st, scope, subject, clock, hash, t)
    ensures s == t
  {
    Text.AscendingIsUnique(s, t, RowID);
  }
}
