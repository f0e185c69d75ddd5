/**
 Entity ids: a three-letter prefix and a zero-padded number. The number in a decision id is
 the primary key of its row.
*/
module Ids {
  import opened Wrappers
  import Decimal

  const WIDTH := 6

  function DecisionId(id: int): string {
    "DEC-" + Decimal.Padded(id, WIDTH)
  }

  function SignalId(id: int): string {
    "SIG-" + Decimal.Padded(id, WIDTH)
  }

  function OutcomeId(id: int): string {
    "OUT-" + Decimal.Padded(id, WIDTH)
  }

  /** The row key in a decision id; None stands for the source's NotFound. */
  function D1Id(id: string): Option<int> {
    if "DEC-" <= id then Decimal.ParseI64(id[4..]) else None
  }

  /** Reading a printed decision id gives the row key back, for every i64. */
  lemma D1IdOfDecisionId(id: int)
    requires Decimal.IsI64(id)
    ensures D1Id(DecisionId(id)) == Some(id)
  {
    Decimal.ParsePadded(id, WIDTH);
    assert DecisionId(id)[4..] == Decimal.Padded(id, WIDTH);
  }

  /** Only the prefix and a number make a decision id; the number may be written in any way that parses. */
  lemma D1IdIff(id: string, n: int)
    ensures D1Id(id) == Some(n) <==> exists text :: id == "DEC-" + text && Decimal.Denotes(text, n)
  {
    if "DEC-" <= id {
      assert id == "DEC-" + id[4..];
      Decimal.ParsesIff(id[4..], n);
    }
    if text :| id == "DEC-" + text && Decimal.Denotes(text, n) {
      assert id[4..] == text;
    }
  }

  /** Below a million an id has ten characters: three letters, the dash, six digits. */
  lemma IdsAreTenWide(id: nat)
    requires id < 1_000_000
    ensures |DecisionId(id)| == |SignalId(id)| == |OutcomeId(id)| == 10
    ensures DecisionId(id)[..4] == "DEC-" && SignalId(id)[..4] == "SIG-" && OutcomeId(id)[..4] == "OUT-"
    ensures DecisionId(id)[4..] == SignalId(id)[4..] == OutcomeId(id)[4..]
    ensures Decimal.AllDigits(DecisionId(id)[4..]) && Decimal.Value(DecisionId(id)[4..]) == id
  {
    assert Decimal.Pow10(6) == 1_000_000;
    Decimal.PaddedWidth(id, 6);
    assert DecisionId(id)[4..] == SignalId(id)[4..] == OutcomeId(id)[4..] == Decimal.Padded(id, 6);
  }

  lemma DecisionIdInjective(a: int, b: int)
    requires Decimal.IsI64(a) && Decimal.IsI64(b)
    ensures DecisionId(a) == DecisionId(b) <==> a == b
  {
    D1IdOfDecisionId(a);
    D1IdOfDecisionId(b);
  }
}
