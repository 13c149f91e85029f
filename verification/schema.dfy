/** The data-revision bookkeeping of src/db/schema.rs. The `dromos_meta`
    key/value table is a map, absent (None) when the table does not exist;
    the SQLite catalogue is the set of table names, absent when it cannot
    be queried. */
module Schema {
  import opened Wrappers
  import opened Errors

  /** `DATA_REVISION`: bumping it wipes every store on next start. */
  const DataRevision: nat := 1

  /** `u32::MAX`. */
  const U32Max: nat := 0xFFFF_FFFF

  /** The key the revision is stored under. */
  const RevisionKey := "data_revision"

  type MetaTable = Option<map<string, string>>

  predicate IsDigit(c: char) {
    '0' <= c <= '9'
  }

  predicate AllDigits(s: string) {
    forall i :: 0 <= i < |s| ==> IsDigit(s[i])
  }

  /** The number a string of decimal digits denotes, most significant first. */
  function DigitsValue(s: string): (v: nat)
    requires AllDigits(s)
  {
    if |s| == 0 then 0
    else DigitsValue(s[..|s| - 1]) * 10 + (s[|s| - 1] as int - '0' as int)
  }

  /** `u32::to_string`: decimal digits with no leading zero. */
  function ToDecimal(n: nat): (s: string)
    ensures |s| > 0 && AllDigits(s)
    ensures |s| > 1 ==> s[0] != '0'
  {
    var d := (n % 10 + '0' as int) as char;
    if n < 10 then [d] else ToDecimal(n / 10) + [d]
  }

  /** Digits read back as the number they were written from. */
  lemma {:induction false} DecimalValue(n: nat)
    ensures DigitsValue(ToDecimal(n)) == n
  {
    var s := ToDecimal(n);
    if n >= 10 {
      DecimalValue(n / 10);
      assert s[..|s| - 1] == ToDecimal(n / 10);
    }
  }

  /** `str::parse::<u32>`: an optional '+', then one or more decimal digits
      whose value fits in 32 bits. */
  function ParseU32(s: string): (r: Option<nat>)
    ensures r.Some? <==>
              var t := if |s| > 0 && s[0] == '+' then s[1..] else s;
              |t| > 0 && AllDigits(t) && DigitsValue(t) <= U32Max
    ensures r.Some? ==> r.value <= U32Max
    ensures |s| > 0 && s[0] == '-' ==> r.None?
  {
    var t := if |s| > 0 && s[0] == '+' then s[1..] else s;
    if |t| == 0 || !AllDigits(t) then None
    else if DigitsValue(t) <= U32Max then Some(DigitsValue(t))
    else None
  }

  /** What `to_string` writes, `parse` reads back. */
  lemma ParseToDecimal(n: nat)
    requires n <= U32Max
    ensures ParseU32(ToDecimal(n)) == Some(n)
  {
    DecimalValue(n);
  }

  /** `get_stored_data_revision`: None when the table or the key is
      missing or the value is not a decimal u32. */
  function GetStoredDataRevision(meta: MetaTable): (r: Option<nat>)
    ensures meta.None? ==> r.None?
    ensures meta.Some? && RevisionKey !in meta.value ==> r.None?
    ensures meta.Some? && RevisionKey in meta.value ==> r == ParseU32(meta.value[RevisionKey])
  {
    match meta
    case None => None
    case Some(m) => if RevisionKey in m then ParseU32(m[RevisionKey]) else None
  }

  /** `set_data_revision`: INSERT OR REPLACE of the one revision row; fails
      when the table does not exist. */
  function SetDataRevision(meta: MetaTable, revision: nat): (r: Outcome<map<string, string>>)
    ensures r.Err? <==> meta.None?
    ensures r.Ok? ==> RevisionKey in r.value && r.value[RevisionKey] == ToDecimal(revision)
    ensures r.Ok? ==> forall k :: k != RevisionKey ==> (k in r.value <==> k in meta.value)
    ensures r.Ok? ==> forall k :: k in meta.value && k != RevisionKey ==> r.value[k] == meta.value[k]
  {
    match meta
    case None => Err(Database)
    case Some(m) => Ok(m[RevisionKey := ToDecimal(revision)])
  }

  /** Storing a revision and reading it back yields that revision. */
  lemma SetThenGet(meta: MetaTable, revision: nat)
    requires meta.Some? && revision <= U32Max
    ensures GetStoredDataRevision(Some(SetDataRevision(meta, revision).value)) == Some(revision)
  {
    ParseToDecimal(revision);
  }

  /** A second store replaces the first: the table ends as if only the
      last revision had been written. */
  lemma SetReplaces(meta: MetaTable, first: nat, second: nat)
    requires meta.Some?
    ensures SetDataRevision(Some(SetDataRevision(meta, first).value), second)
            == SetDataRevision(meta, second)
  {
    var m := meta.value;
    assert m[RevisionKey := ToDecimal(first)][RevisionKey := ToDecimal(second)]
           == m[RevisionKey := ToDecimal(second)];
  }

  /** `has_existing_data`: whether a table named `nodes` exists; a failed
      catalogue query counts as no. */
  function HasExistingData(catalog: Option<set<string>>): (r: bool)
    ensures r <==> catalog.Some? && "nodes" in catalog.value
  {
    match catalog
    case None => false
    case Some(tables) => "nodes" in tables
  }
}
