/** The records an account is made of: facts about expectations, and the summary kept of the facts
    that have been compacted away. Moments are instants on one time line. */
module Ledger {
  import opened Orders

  // In the order of the source's list of kinds.
  datatype Kind = OnTime | Early | Late | Prompted | Expired | CaughtUp | Void

  datatype Key = Key(at: int, id: string)

  datatype Fact = Fact(
    account: string,
    at: int,
    good: bool,
    strength: real,
    kind: Kind,
    id: string,
    offset: Option<int>,
    writtenAt: Option<int>)

  datatype Summary = Summary(
    account: string,
    through: Key,
    offsets: seq<(nat, nat)>,
    gapLengths: seq<(real, nat)>,
    lastDay: Option<int>,
    dayTypes: seq<Option<string>>)

  function KeyOf(f: Fact): Key { Key(f.at, f.id) }

  predicate KeyLe(a: Key, b: Key) {
    a.at < b.at || (a.at == b.at && TextLe(a.id, b.id))
  }

  lemma KeysAreOrdered()
    ensures TotalOrder(KeyLe)
  {
    TextIsOrdered();
    forall a, b, c | Chain(KeyLe, a, b, c) ensures KeyLe(a, c) {
      if a.at == b.at == c.at { Transitive(TextLe, a.id, b.id, c.id); }
    }
  }

  /** Who overrides whom among the facts of one expectation. */
  function Precedence(f: Fact): int {
    if f.writtenAt.Some? then f.writtenAt.value else f.at
  }

  predicate IsRevision(f: Fact) { f.kind == CaughtUp }

  predicate IsNaturalHit(f: Fact) { f.kind in {OnTime, Early, Late} }

  /** Whether a fact with this key lies in the part a summary stands for. */
  predicate Covered(through: Option<Key>, key: Key) {
    through.Some? && KeyLe(key, through.value)
  }

  function Through(base: Option<Summary>): Option<Key> {
    if base.Some? then Some(base.value.through) else None
  }
}
