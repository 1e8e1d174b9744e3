/**
 The credential table of the notepad server and its login check.

 The server streams a CSV file row by row and folds every row into a map
 from username to password; the `/login` endpoint then accepts a username
 and password exactly when the map holds that pair. File discovery and CSV
 parsing are not modelled: the input here is the sequence of already-parsed
 rows.
 */
module Credentials {

  /** One parsed CSV row, reduced to the four columns the loader looks at.
      The empty string stands for a cell that is empty or a column that is
      absent: both are falsy in the `||` and `&&` tests of the loader. */
  datatype CsvRow = CsvRow(username: string, Username: string, password: string, Password: string)

  /** Reply of the `/login` endpoint. */
  datatype LoginReply = LoggedIn(username: string) | Rejected(message: string)

  const InvalidCredentials: string := "Invalid credentials"

  /** JavaScript's `primary || fallback` on two strings. */
  function StringOr(primary: string, fallback: string): (r: string)
    ensures primary != "" ==> r == primary
    ensures primary == "" ==> r == fallback
    ensures r != "" <==> primary != "" || fallback != ""
  {
    if primary != "" then primary else fallback
  }

  /** The username a row contributes: the lower-case column wins over the capitalised one. */
  function RowUsername(row: CsvRow): string {
    StringOr(row.username, row.Username)
  }

  function RowPassword(row: CsvRow): string {
    StringOr(row.password, row.Password)
  }

  /** A row is stored only when both its username and its password are truthy. */
  predicate Accepted(row: CsvRow)
    ensures Accepted(row) <==>
              (row.username != "" || row.Username != "") && (row.password != "" || row.Password != "")
  {
    RowUsername(row) != "" && RowPassword(row) != ""
  }

  /** The effect of one streamed row on the table. */
  function AddRow(table: map<string, string>, row: CsvRow): (r: map<string, string>)
    ensures Accepted(row) ==> r.Keys == table.Keys + {RowUsername(row)} && r[RowUsername(row)] == RowPassword(row)
    ensures !Accepted(row) ==> r == table
    ensures forall u :: u in table && u != RowUsername(row) ==> r[u] == table[u]
  {
    if Accepted(row) then table[RowUsername(row) := RowPassword(row)] else table
  }

  /** The table after folding the rows in stream order. */
  function UserTable(rows: seq<CsvRow>): (r: map<string, string>)
    ensures forall u :: u in r ==> u != "" && r[u] != ""
    decreases |rows|
  {
    if rows == [] then map[] else AddRow(UserTable(rows[..|rows| - 1]), rows[|rows| - 1])
  }

  /** Row `i` is the last accepted row that names `u`. */
  ghost predicate IsLatestRow(rows: seq<CsvRow>, i: int, u: string) {
    && 0 <= i < |rows|
    && Accepted(rows[i])
    && RowUsername(rows[i]) == u
    && forall j :: i < j < |rows| ==> !(Accepted(rows[j]) && RowUsername(rows[j]) == u)
  }

  /** The per-row accumulation of the loader, one `set` per accepted row. */
  method LoadUsers(rows: seq<CsvRow>) returns (users: map<string, string>)
    ensures users == UserTable(rows)
  {
    users := map[];
    var i := 0;
    // The loop body is the stream's per-row callback; `AddRow` states its effect.
    while i < |rows|
      invariant 0 <= i <= |rows|
      invariant users == UserTable(rows[..i])
    {
      var row := rows[i];
      var username := StringOr(row.username, row.Username);
      var password := StringOr(row.password, row.Password);
      if username != "" && password != "" {
        users := users[username := password];
      }
      assert rows[..i + 1][..i] == rows[..i];
      i := i + 1;
    }
    assert rows[..|rows|] == rows;
  }

  /** A username is in the table exactly when some accepted row names it. */
  lemma {:induction false} UserTableDomain(rows: seq<CsvRow>, u: string)
    ensures u in UserTable(rows) <==>
            exists i :: 0 <= i < |rows| && Accepted(rows[i]) && RowUsername(rows[i]) == u
    decreases |rows|
  {
    if rows != [] {
      var front := rows[..|rows| - 1];
      UserTableDomain(front, u);
      if u in UserTable(front) {
        var i :| 0 <= i < |front| && Accepted(front[i]) && RowUsername(front[i]) == u;
        assert rows[i] == front[i];
      }
      if exists i :: 0 <= i < |rows| && Accepted(rows[i]) && RowUsername(rows[i]) == u {
        var i :| 0 <= i < |rows| && Accepted(rows[i]) && RowUsername(rows[i]) == u;
        if i < |front| {
          assert front[i] == rows[i];
        }
      }
    }
  }

  /** Later rows overwrite earlier ones: the table holds the password of the last accepted row for `u`. */
  lemma {:induction false} UserTableLastWins(rows: seq<CsvRow>, i: int, u: string)
    requires IsLatestRow(rows, i, u)
    ensures u in UserTable(rows) && UserTable(rows)[u] == RowPassword(rows[i])
    decreases |rows|
  {
    var front := rows[..|rows| - 1];
    if i < |rows| - 1 {
      assert front[i] == rows[i];
      forall j | i < j < |front| ensures !(Accepted(front[j]) && RowUsername(front[j]) == u) {
        assert front[j] == rows[j];
      }
      UserTableLastWins(front, i, u);
      assert !(Accepted(rows[|rows| - 1]) && RowUsername(rows[|rows| - 1]) == u);
    }
  }

  /** Every entry of the table comes from the last accepted row that names it. */
  lemma {:induction false} UserTableEntry(rows: seq<CsvRow>, u: string)
    requires u in UserTable(rows)
    ensures exists i :: IsLatestRow(rows, i, u) && UserTable(rows)[u] == RowPassword(rows[i])
    decreases |rows|
  {
    var last := |rows| - 1;
    var front := rows[..last];
    if Accepted(rows[last]) && RowUsername(rows[last]) == u {
      assert IsLatestRow(rows, last, u);
    } else {
      UserTableEntry(front, u);
      var i :| IsLatestRow(front, i, u) && UserTable(front)[u] == RowPassword(front[i]);
      assert front[i] == rows[i];
      forall j | i < j < |rows| ensures !(Accepted(rows[j]) && RowUsername(rows[j]) == u) {
        if j < last {
          assert front[j] == rows[j];
        }
      }
      assert IsLatestRow(rows, i, u);
    }
  }

  /** The `/login` check (both the root and the `/Common_Notepad` handler run it). */
  function Login(users: map<string, string>, username: string, password: string): (r: LoginReply)
    ensures r.LoggedIn? <==> username in users && users[username] == password
    ensures r.LoggedIn? ==> r.username == username
    ensures r.Rejected? ==> r.message == InvalidCredentials
  {
    if username in users && users[username] == password then LoggedIn(username)
    else Rejected(InvalidCredentials)
  }

  /** Logging in against the loaded table succeeds exactly when the last accepted
      row naming the user carries the given password. */
  lemma {:induction false} LoginAgainstRows(rows: seq<CsvRow>, username: string, password: string)
    ensures Login(UserTable(rows), username, password).LoggedIn? <==>
            exists i :: IsLatestRow(rows, i, username) && RowPassword(rows[i]) == password
  {
    var table := UserTable(rows);
    if username in table {
      UserTableEntry(rows, username);
      var i :| IsLatestRow(rows, i, username) && table[username] == RowPassword(rows[i]);
    } else if exists i :: IsLatestRow(rows, i, username) && RowPassword(rows[i]) == password {
      var i :| IsLatestRow(rows, i, username) && RowPassword(rows[i]) == password;
      UserTableLastWins(rows, i, username);
      assert false;
    }
  }
}
