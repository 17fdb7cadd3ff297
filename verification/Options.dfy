/** Small definitions shared by the table models. */
module Options {
  /** The conventional optional value, used for nullable columns and absent results. */
  datatype Option<+T> = None | Some(value: T)

  /** Deleting a set of rows removes as many rows as the set has keys. */
  lemma DeletedRowsCount<K, V>(rows: map<K, V>, doomed: set<K>)
    requires doomed <= rows.Keys
    ensures |rows| == |rows - doomed| + |doomed|
  {
    assert rows.Keys == (rows - doomed).Keys + doomed;
    assert |rows.Keys| == |(rows - doomed).Keys| + |doomed|;
  }
}
