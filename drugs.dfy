/**
 * The drug index -> display name table and the lookup with fallback used to
 * label a query (streamlit_app.py:20-41, 130-131).
 */
module Drugs {
  import opened Config
  import opened Decimal

  /** The names of `drug_names` in key order: position k holds the value of key k. */
  const NameTable: seq<string> := [
    "Amoxicillin",
    "Ceftriaxone",
    "Ciprofloxacin",
    "Gentamicin",
    "Meropenem",
    "Imipenem",
    "Piperacillin/Tazobactam",
    "Colistin",
    "Aztreonam",
    "Levofloxacin",
    "Tigecycline",
    "Ceftazidime",
    "Ertapenem",
    "Ampicillin-Sulbactam",
    "Doripenem",
    "Cefepime",
    "Amikacin",
    "Trimethoprim-Sulfamethoxazole",
    "Ticarcillin-Clavulanate",
    "Nitrofurantoin"
  ]

  /** The dictionary `drug_names`: key k maps to position k of the table. */
  const DrugNames: map<int, string> := map k | 0 <= k < |NameTable| :: NameTable[k]

  /** The text `f"Drug {i}"` shown for an index the table does not know. */
  function FallbackName(i: int): string {
    "Drug " + IntToDecimal(i)
  }

  /** `drug_names.get(i, f"Drug {i}")`. */
  function DrugName(i: int): (name: string)
    ensures 0 <= i < NumNodes ==> name == DrugNames[i]
    ensures !(0 <= i < NumNodes) ==> name == FallbackName(i)
  {
    if i in DrugNames then DrugNames[i] else FallbackName(i)
  }

  /** The table is keyed by exactly the valid node indices. */
  lemma DrugNamesKeys(i: int)
    ensures i in DrugNames <==> 0 <= i < NumNodes
  {
  }

  /** The first and last valid nodes resolve to their table names; their neighbours outside the range fall back. */
  lemma BoundaryNames()
    ensures DrugName(0) == "Amoxicillin"
    ensures DrugName(NumNodes - 1) == "Nitrofurantoin"
    ensures DrugName(-1) == "Drug -1"
    ensures DrugName(NumNodes) == "Drug 20"
  {
  }

  /** No table entry begins with "Drug ", so a fallback name never looks like a table name. */
  lemma FallbackIsNotATableName(i: int, k: int)
    requires 0 <= k < NumNodes
    ensures FallbackName(i) != DrugNames[k]
  {
    var f := FallbackName(i);
    assert f[1] == 'r';
    assert DrugNames[k][1] != 'r' || DrugNames[k][0] != 'D';
  }

  /** Distinct table indices carry distinct names. */
  lemma TableNamesDistinct(a: int, b: int)
    requires 0 <= a < NumNodes && 0 <= b < NumNodes
    requires DrugNames[a] == DrugNames[b]
    ensures a == b
  {
    var s := DrugNames[a];
    assert |s| == |DrugNames[b]| && s[0] == DrugNames[b][0] && s[2] == DrugNames[b][2];
  }

  /** The displayed name identifies the index: resolution is unambiguous across table and fallback. */
  lemma DrugNameInjective(i: int, j: int)
    requires DrugName(i) == DrugName(j)
    ensures i == j
  {
    var inI, inJ := 0 <= i < NumNodes, 0 <= j < NumNodes;
    if inI && inJ {
      TableNamesDistinct(i, j);
    } else if inI {
      FallbackIsNotATableName(j, i);
    } else if inJ {
      FallbackIsNotATableName(i, j);
    } else {
      assert FallbackName(i)[5..] == IntToDecimal(i);
      assert FallbackName(j)[5..] == IntToDecimal(j);
      IntToDecimalInjective(i, j);
    }
  }
}
