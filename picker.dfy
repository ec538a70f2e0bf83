/** The "pick random" feature: which row the random draw lands on, and the
    three fields shown from it. */
module Picker {
  import opened Wrappers
  import opened JsValues

  /** The three values shown under "Title", "Description" and "Source". */
  datatype Selection = Selection(title: Value, description: Value, link: Value)

  /** Shown when the row's first value is missing or falsy. */
  const NoTitle: Value := Str("No title")

  /** `row[k]`: undefined past the end of the row. */
  function Field(row: seq<Value>, k: nat): Option<Value>
  {
    if k < |row| then Some(row[k]) else None
  }

  /** `row[0] || "No title"`, `row[1] || ""`, `row[2] || ""`. The title is
      never blank; each field is the row's value at its position exactly when
      that value exists and is truthy, and the default otherwise. */
  function Select(row: seq<Value>): (sel: Selection)
    ensures Truthy(sel.title)
    ensures sel.title == (if |row| > 0 && Truthy(row[0]) then row[0] else NoTitle)
    ensures sel.description == (if |row| > 1 && Truthy(row[1]) then row[1] else Blank)
    ensures sel.link == (if |row| > 2 && Truthy(row[2]) then row[2] else Blank)
  {
    Selection(OrElse(Field(row, 0), NoTitle), OrElse(Field(row, 1), Blank), OrElse(Field(row, 2), Blank))
  }

  /** `Math.floor(r * n)` for a draw `r` of `Math.random()`. */
  function PickIndex(r: real, n: nat): (k: nat)
    requires 0.0 <= r < 1.0 && n > 0
    ensures k < n
  {
    var x := r * n as real;
    assert 0.0 <= x < n as real by {
      assert r * n as real < 1.0 * n as real;
    }
    x.Floor
  }

  /** The draws in [0, 1) are cut into `n` intervals of width 1/n, one per
      index: index `k` is picked exactly when k/n <= r < (k+1)/n. A uniform
      draw therefore picks every row with the same probability. */
  lemma PickIndexInterval(r: real, n: nat, k: nat)
    requires 0.0 <= r < 1.0 && n > 0 && k < n
    ensures PickIndex(r, n) == k <==> k as real / n as real <= r < (k + 1) as real / n as real
  {
  }
}
