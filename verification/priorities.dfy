/**
 * The priority table `PRIORITIES` of `main.py`: five one-letter codes, each
 * with a label and a weight used to order notes. The terminal colour that
 * goes with each label is presentation and is not modelled.
 */
module Priorities {
  import opened Wrappers

  /** The codes in increasing order of importance: optional, low, medium, high, crucial. */
  const Codes: seq<string> := ["o", "l", "m", "h", "c"]

  /** Code -> (label, weight). */
  const Table: map<string, (string, int)> := map[
    "o" := ("OPTIONAL", 10),
    "l" := ("LOW", 20),
    "m" := ("MEDIUM", 30),
    "h" := ("HIGH", 40),
    "c" := ("CRUCIAL", 50)
  ]

  /** The code a missing or unknown priority is displayed as. */
  const DefaultCode: string := "m"

  /** The sort weight of a code, `PRIORITIES[code][2]`; `None` where the source raises `KeyError`. */
  function Weight(code: string): (w: Option<int>)
    ensures w.Some? <==> code in Codes
    ensures w.Some? ==> 10 <= w.value <= 50 && w.value % 10 == 0
  {
    if code in Table then Some(Table[code].1) else None
  }

  /** The weights increase strictly along `o, l, m, h, c`, so no two codes share one. */
  lemma WeightsFollowCodeOrder(i: nat, j: nat)
    requires i < j < |Codes|
    ensures Weight(Codes[i]).Some? && Weight(Codes[j]).Some?
    ensures Weight(Codes[i]).value < Weight(Codes[j]).value
  {
  }

  /**
   * The label `_get_priority_as_text` shows for a note whose `prio` entry is
   * `prio` (`None` when the entry is missing or null): the code's own label,
   * with anything that is not one of the five codes shown as MEDIUM.
   */
  function PriorityLabel(prio: Option<string>): (shown: string)
    ensures prio.Some? && prio.value in Codes ==> shown == Table[prio.value].0
    ensures shown == "MEDIUM" <==> prio.None? || prio.value !in Codes || prio.value == DefaultCode
    ensures shown in {"OPTIONAL", "LOW", "MEDIUM", "HIGH", "CRUCIAL"}
  {
    var code := if prio.Some? && prio.value in Table then prio.value else DefaultCode;
    Table[code].0
  }
}
