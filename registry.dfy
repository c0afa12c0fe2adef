/**
 * The registry of mortality tables, keyed by a lower-case table name, and the
 * name resolution shared by the `/calculate` handler and the actuarial service:
 * the requested name is lower-cased and an empty name means "male".
 */
module Registry {
  import opened Text
  import opened Actuarial

  /** The loaded tables by name; filled once at start-up and only read afterwards. */
  type TableRegistry = map<string, MortalityTable>

  /** The key under which a requested table name is looked up. */
  function ResolveTableName(requested: string): (key: string)
    ensures key != ""
    ensures forall i :: 0 <= i < |key| ==> !('A' <= key[i] <= 'Z')
    ensures requested == "" ==> key == "male"
    ensures requested != "" ==> key == ToLower(requested)
  {
    var lowered := ToLower(requested);
    if lowered == "" then "male" else lowered
  }

  /** The lookup ignores letter case: a name and its lower-case form resolve to the same key. */
  lemma ResolveIgnoresCase(requested: string)
    ensures ResolveTableName(ToLower(requested)) == ResolveTableName(requested)
  {
    ToLowerIdempotent(requested);
  }

  /** An example of case-insensitivity: "MALE", "Male" and the empty name all select the "male" table. */
  lemma ResolveMaleSpellings()
    ensures ResolveTableName("MALE") == "male"
    ensures ResolveTableName("Male") == "male"
    ensures ResolveTableName("") == "male"
    ensures ResolveTableName("Female") == "female"
  {
    assert ToLower("MALE") == "male";
    assert ToLower("Male") == "male";
    assert ToLower("Female") == "female";
  }
}
