/** The stake ledger: how much of each currency sits in user balances and how much is
    held by oaths as the stakes of their ACCEPTED participants. */
module Ledger {
  import opened Schema

  /** The sum of the values of a finite map. */
  ghost function Sum<K>(m: map<K, int>): int
    decreases |m|
  {
    if m == map[] then 0
    else
      var k :| k in m;
      m[k] + Sum(m - {k})
  }

  /** Any key may be taken out first. */
  lemma {:induction false} SumRemove<K>(m: map<K, int>, k: K)
    requires k in m
    ensures Sum(m) == m[k] + Sum(m - {k})
    decreases |m|
  {
    assert m != map[];
    var j :| j in m && Sum(m) == m[j] + Sum(m - {j});
    if j != k {
      assert k in m - {j};
      SumRemove(m - {j}, k);
      assert j in m - {k};
      SumRemove(m - {k}, j);
      assert m - {j} - {k} == m - {k} - {j};
    }
  }

  lemma SumUpdate<K>(m: map<K, int>, k: K, v: int)
    requires k in m
    ensures Sum(m[k := v]) == Sum(m) - m[k] + v
  {
    SumRemove(m, k);
    SumRemove(m[k := v], k);
    assert m[k := v] - {k} == m - {k};
  }

  lemma SumInsert<K>(m: map<K, int>, k: K, v: int)
    requires k !in m
    ensures Sum(m[k := v]) == Sum(m) + v
  {
    SumRemove(m[k := v], k);
    assert m[k := v] - {k} == m;
  }

  /** Each user's balance in currency `c`. */
  function Balances(users: map<nat, User>, c: Currency): (r: map<nat, int>)
    ensures r.Keys == users.Keys
  {
    map i | i in users :: Balance(users[i], c)
  }

  /** The stake a participant row holds in currency `c`: its stake once it has ACCEPTED. */
  function Held(k: PKey, p: Participant, oaths: map<nat, Oath>, c: Currency): int {
    if p.status == ACCEPTED && k.oath in oaths && oaths[k.oath].currency == c then p.stakeAmount else 0
  }

  function Escrow(ps: map<PKey, Participant>, oaths: map<nat, Oath>, c: Currency): (r: map<PKey, int>)
    ensures r.Keys == ps.Keys
  {
    map k | k in ps :: Held(k, ps[k], oaths, c)
  }

  /** All of currency `c` in the system: balances plus stakes held by oaths. */
  ghost function Total(d: Db, c: Currency): int {
    Sum(Balances(d.users, c)) + Sum(Escrow(d.participants, d.oaths, c))
  }

  /** Between stores with the same participant and oath tables, totals differ only by balances. */
  lemma TotalOfBalances(d: Db, e: Db, c: Currency, delta: int)
    requires e.participants == d.participants && e.oaths == d.oaths
    requires Sum(Balances(e.users, c)) == Sum(Balances(d.users, c)) + delta
    ensures Total(e, c) == Total(d, c) + delta
  {
  }

  /** No currency is created or destroyed between `d` and `e`. */
  ghost predicate Conserved(d: Db, e: Db) {
    forall c :: Total(e, c) == Total(d, c)
  }

  lemma BalancesUpdate(users: map<nat, User>, i: nat, u: User, c: Currency)
    requires i in users
    ensures Sum(Balances(users[i := u], c)) == Sum(Balances(users, c)) - Balance(users[i], c) + Balance(u, c)
  {
    assert Balances(users[i := u], c) == Balances(users, c)[i := Balance(u, c)];
    SumUpdate(Balances(users, c), i, Balance(u, c));
  }

  lemma BalancesInsert(users: map<nat, User>, i: nat, u: User, c: Currency)
    requires i !in users
    ensures Sum(Balances(users[i := u], c)) == Sum(Balances(users, c)) + Balance(u, c)
  {
    assert Balances(users[i := u], c) == Balances(users, c)[i := Balance(u, c)];
    SumInsert(Balances(users, c), i, Balance(u, c));
  }

  /** Debiting `amount` in currency `c` lowers the sum of the `c` balances by `amount`
      and leaves the other currency's sum alone. */
  lemma BalancesDebit(users: map<nat, User>, i: nat, c: Currency, amount: int, c': Currency)
    requires i in users
    ensures Sum(Balances(users[i := Debit(users[i], c, amount)], c')) ==
            Sum(Balances(users, c')) - (if c' == c then amount else 0)
  {
    BalancesUpdate(users, i, Debit(users[i], c, amount), c');
  }

  lemma EscrowUpdate(ps: map<PKey, Participant>, oaths: map<nat, Oath>, k: PKey, p: Participant, c: Currency)
    requires k in ps
    ensures Sum(Escrow(ps[k := p], oaths, c)) ==
            Sum(Escrow(ps, oaths, c)) - Held(k, ps[k], oaths, c) + Held(k, p, oaths, c)
  {
    assert Escrow(ps[k := p], oaths, c) == Escrow(ps, oaths, c)[k := Held(k, p, oaths, c)];
    SumUpdate(Escrow(ps, oaths, c), k, Held(k, p, oaths, c));
  }

  lemma EscrowInsert(ps: map<PKey, Participant>, oaths: map<nat, Oath>, k: PKey, p: Participant, c: Currency)
    requires k !in ps
    ensures Sum(Escrow(ps[k := p], oaths, c)) == Sum(Escrow(ps, oaths, c)) + Held(k, p, oaths, c)
  {
    assert Escrow(ps[k := p], oaths, c) == Escrow(ps, oaths, c)[k := Held(k, p, oaths, c)];
    SumInsert(Escrow(ps, oaths, c), k, Held(k, p, oaths, c));
  }

  /** Adding an oath no participant row refers to holds nothing new. */
  lemma EscrowNewOath(ps: map<PKey, Participant>, oaths: map<nat, Oath>, o: nat, oath: Oath, c: Currency)
    requires forall k :: k in ps ==> k.oath != o
    ensures Escrow(ps, oaths[o := oath], c) == Escrow(ps, oaths, c)
  {
  }

  /** Changing an oath's status but not its currency holds nothing new. */
  lemma EscrowOathStatus(ps: map<PKey, Participant>, oaths: map<nat, Oath>, o: nat, s: OathStatus, c: Currency)
    requires o in oaths
    ensures Escrow(ps, oaths[o := oaths[o].(status := s)], c) == Escrow(ps, oaths, c)
  {
  }

  /** Rows that keep their status and stake hold the same amounts. */
  lemma EscrowSameStakes(ps: map<PKey, Participant>, qs: map<PKey, Participant>, oaths: map<nat, Oath>, c: Currency)
    requires SameStakes(ps, qs)
    ensures Escrow(qs, oaths, c) == Escrow(ps, oaths, c)
  {
  }
}
