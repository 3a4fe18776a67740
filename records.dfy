/** Member records as the table holds them after JSON parsing: an object whose
    fields carry dynamically typed values, and the case-insensitive search
    test the table's filter applies to one record. */
module Records {

  /** A JavaScript value as it can appear in a parsed record. `Undefined` is
      what reading a field the record does not have yields. */
  datatype Value = Str(s: string) | Num(n: int) | Bool(b: bool) | Null | Undefined

  /** A record: field name to value. Object.values(row) is the range of this map. */
  type Row = map<string, Value>

  /** `row.id`. */
  function IdOf(row: Row): (v: Value)
    ensures "id" in row ==> v == row["id"]
    ensures "id" !in row ==> v == Undefined
  {
    if "id" in row then row["id"] else Undefined
  }

  /** String.prototype.toLowerCase, restricted to the ASCII letters. */
  function LowerChar(c: char): (d: char)
    ensures 'A' <= c <= 'Z' ==> d as int == c as int + 32
    ensures !('A' <= c <= 'Z') ==> d == c
  {
    if 'A' <= c <= 'Z' then (c as int + 32) as char else c
  }

  function Lower(s: string): (r: string)
    ensures |r| == |s|
    ensures forall i :: 0 <= i < |s| ==> r[i] == LowerChar(s[i])
  {
    seq(|s|, i requires 0 <= i < |s| => LowerChar(s[i]))
  }

  /** `q` occurs in `s` starting at position `i`. */
  ghost predicate OccursAt(s: string, q: string, i: nat)
  {
    i + |q| <= |s| && s[i..i + |q|] == q
  }

  /** String.prototype.includes: `q` is a substring of `s`. */
  function Includes(s: string, q: string): (r: bool)
    ensures q <= s ==> r
    ensures r ==> |q| <= |s|
    decreases |s|
  {
    if q <= s then true
    else if s == [] then false
    else Includes(s[1..], q)
  }

  /** `Includes` answers exactly whether `q` occurs somewhere in `s`. */
  lemma {:induction false} IncludesIffOccurs(s: string, q: string)
    ensures Includes(s, q) <==> exists i: nat :: OccursAt(s, q, i)
  {
    if q <= s {
      assert OccursAt(s, q, 0);
    } else if s == [] {
      assert forall i: nat :: !OccursAt(s, q, i);
    } else {
      IncludesIffOccurs(s[1..], q);
      assert !OccursAt(s, q, 0) by {
        if |q| <= |s| {
          assert s[..|q|] == s[0..|q|];
        }
      }
      if i: nat :| OccursAt(s[1..], q, i) {
        assert s[1..][i..i + |q|] == s[i + 1..i + 1 + |q|];
        assert OccursAt(s, q, i + 1);
      }
      forall i: nat | OccursAt(s, q, i) ensures OccursAt(s[1..], q, i - 1) {
        assert s[1..][i - 1..i - 1 + |q|] == s[i..i + |q|];
      }
    }
  }

  /** A query longer than the string is never included in it. */
  lemma IncludesNeedsRoom(s: string, q: string)
    requires |s| < |q|
    ensures !Includes(s, q)
  {
    IncludesIffOccurs(s, q);
  }

  /** Every string includes the empty string. */
  lemma IncludesEmpty(s: string)
    ensures Includes(s, "")
  {
  }

  /** The search test of the table's filter: some field of `row` holds a
      string whose lower-case form includes the lower-cased query. Fields
      that do not hold strings never match. */
  predicate Matches(row: Row, query: string): (m: bool)
    ensures m ==> HasStringField(row)
    ensures m <==> exists k: string, i: nat :: k in row && row[k].Str? && OccursAt(Lower(row[k].s), Lower(query), i)
  {
    FieldIncludesIffOccurs(row, query);
    exists k: string :: k in row && row[k].Str? && Includes(Lower(row[k].s), Lower(query))
  }

  /** Some string field includes the query exactly when the query occurs at
      some position of some string field (both lower-cased). */
  lemma FieldIncludesIffOccurs(row: Row, query: string)
    ensures (exists k: string :: k in row && row[k].Str? && Includes(Lower(row[k].s), Lower(query)))
        <==> exists k: string, i: nat :: k in row && row[k].Str? && OccursAt(Lower(row[k].s), Lower(query), i)
  {
    forall k: string | k in row && row[k].Str? {
      IncludesIffOccurs(Lower(row[k].s), Lower(query));
    }
  }

  /** Some field of `row` holds a string. */
  predicate HasStringField(row: Row)
  {
    exists k: string :: k in row && row[k].Str?
  }

  /** The empty query matches every record that has at least one string
      field, and only those. */
  lemma EmptyQueryMatches(row: Row)
    ensures Matches(row, "") <==> HasStringField(row)
  {
    assert Lower("") == "";
    forall k | k in row && row[k].Str? ensures Includes(Lower(row[k].s), "") {
      IncludesEmpty(Lower(row[k].s));
    }
  }
}
