/**
 * The text of the soft-delete statement
 * `UPDATE <table> SET deleted = NOW() WHERE id NOT IN (?, ..., ?)`:
 * how the writer builds it (append `"?, "` once per data row, drop the last two
 * characters, append `")"`) and how the server reads it back.
 */
module SoftDeleteQuery {
  import opened Wrappers

  /** The statement up to and including the opening parenthesis of the key list. */
  function Head(tableName: string): string
  {
    "UPDATE " + tableName + " SET deleted = NOW() WHERE id NOT IN ("
  }

  /** `s` written `n` times. */
  function Repeat(s: string, n: nat): string
    decreases n
  {
    if n == 0 then "" else s + Repeat(s, n - 1)
  }

  /** The number of `?` in a list `?, ?, ..., ?)`; None when `s` is not such a list. */
  function Placeholders(s: string): Option<nat>
    decreases |s|
  {
    if s == "?)" then Some(1)
    else if |s| >= 3 && s[..3] == "?, " then
      match Placeholders(s[3..])
      case None => None
      case Some(k) => Some(k + 1)
    else None
  }

  /**
   * The server's reading of a soft-delete statement for `tableName`: the number
   * of placeholders of its key list, or None for a text it rejects (an empty key
   * list is rejected as well).
   */
  function Parse(tableName: string, query: string): Option<nat>
  {
    var h := Head(tableName);
    if |h| <= |query| && query[..|h|] == h then Placeholders(query[|h|..]) else None
  }

  /** How often `c` occurs in `s`. */
  function Occurrences(s: string, c: char): nat
    decreases |s|
  {
    if s == [] then 0 else Occurrences(s[..|s| - 1], c) + (if s[|s| - 1] == c then 1 else 0)
  }

  /**
   * Builds the soft-delete statement for a CSV list of `size` rows, one
   * placeholder per data row. With no data row the trim removes `" ("` and the
   * text ends in `NOT IN)`, which the server rejects.
   */
  method Build(tableName: string, size: nat) returns (query: string)
    ensures Parse(tableName, query) == if size <= 1 then None else Some(size - 1)
    ensures '?' !in tableName ==> Occurrences(query, '?') == if size <= 1 then 0 else size - 1
  {
    query := Head(tableName);
    var i := 1;
    while i < size
      invariant 1 <= i && (i <= size || i == 1)
      invariant query == Head(tableName) + Repeat("?, ", i - 1)
    {
      RepeatSnoc("?, ", i - 1);
      query := query + "?, ";
      i := i + 1;
    }
    var n := if size <= 1 then 0 else size - 1;
    assert query == Head(tableName) + Repeat("?, ", n);
    query := query[..|query| - 2];
    query := query + ")";
    if n == 0 {
      assert query == Head(tableName)[..|Head(tableName)| - 2] + ")";
    } else {
      RepeatSnoc("?, ", n - 1);
      assert query == Head(tableName) + (Repeat("?, ", n - 1) + "?)");
      assert query[..|Head(tableName)|] == Head(tableName);
      assert query[|Head(tableName)|..] == Repeat("?, ", n - 1) + "?)";
      PlaceholderList(n - 1);
    }
    if '?' !in tableName {
      HeadHasNoPlaceholder(tableName);
      if n == 0 {
        var h := Head(tableName);
        assert h == h[..|h| - 2] + h[|h| - 2..];
        OccurrencesAppend(h[..|h| - 2], h[|h| - 2..], '?');
        OccurrencesAppend(h[..|h| - 2], ")", '?');
      } else {
        OccurrencesAppend(Head(tableName), Repeat("?, ", n - 1) + "?)", '?');
        OccurrencesAppend(Repeat("?, ", n - 1), "?)", '?');
        OccurrencesOfRepeat(n - 1);
      }
    }
  }

  lemma {:induction false} RepeatSnoc(s: string, n: nat)
    ensures Repeat(s, n + 1) == Repeat(s, n) + s
    decreases n
  {
    if n > 0 {
      RepeatSnoc(s, n - 1);
    }
  }

  /** A list of `k + 1` placeholders reads back as `k + 1`. */
  lemma {:induction false} PlaceholderList(k: nat)
    ensures Placeholders(Repeat("?, ", k) + "?)") == Some(k + 1)
    decreases k
  {
    if k > 0 {
      var s := Repeat("?, ", k) + "?)";
      assert s == "?, " + (Repeat("?, ", k - 1) + "?)");
      assert s[..3] == "?, " && s[3..] == Repeat("?, ", k - 1) + "?)";
      PlaceholderList(k - 1);
    } else {
      assert Repeat("?, ", 0) + "?)" == "?)";
    }
  }

  lemma {:induction false} OccurrencesAppend(a: string, b: string, c: char)
    ensures Occurrences(a + b, c) == Occurrences(a, c) + Occurrences(b, c)
    decreases |b|
  {
    if b == [] {
      assert a + b == a;
    } else {
      assert (a + b)[..|a + b| - 1] == a + b[..|b| - 1];
      OccurrencesAppend(a, b[..|b| - 1], c);
    }
  }

  lemma {:induction false} OccurrencesAbsent(s: string, c: char)
    requires c !in s
    ensures Occurrences(s, c) == 0
    decreases |s|
  {
    if s != [] {
      assert s[..|s| - 1] <= s;
      OccurrencesAbsent(s[..|s| - 1], c);
    }
  }

  lemma {:induction false} OccurrencesOfRepeat(k: nat)
    ensures Occurrences(Repeat("?, ", k), '?') == k
    decreases k
  {
    if k > 0 {
      OccurrencesAppend("?, ", Repeat("?, ", k - 1), '?');
      OccurrencesOfRepeat(k - 1);
      assert Occurrences("?, ", '?') == 1 by {
        assert "?, "[..2] == "?," && "?,"[..1] == "?" && "?"[..0] == "";
      }
    }
  }

  lemma HeadHasNoPlaceholder(tableName: string)
    requires '?' !in tableName
    ensures '?' !in Head(tableName)
    ensures Occurrences(Head(tableName), '?') == 0
  {
    var tail := " SET deleted = NOW() WHERE id NOT IN (";
    assert forall i :: 0 <= i < |tail| ==> tail[i] != '?';
    assert forall i :: 0 <= i < |"UPDATE "| ==> "UPDATE "[i] != '?';
    var h := Head(tableName);
    assert forall i :: 0 <= i < |h| ==> h[i] != '?' by {
      forall i | 0 <= i < |h| ensures h[i] != '?' {
        if i < 7 {
          assert h[i] == "UPDATE "[i];
        } else if i < 7 + |tableName| {
          assert h[i] == tableName[i - 7];
        } else {
          assert h[i] == tail[i - 7 - |tableName|];
        }
      }
    }
    OccurrencesAbsent(h, '?');
  }
}
