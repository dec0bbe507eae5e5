/** The `PUT /vault/:id` handler up to the database call: it encrypts a new
    password, collects one `column = ?` assignment with its value for every
    field the request sets, always refreshes `updated_at`, and scopes the
    statement to the requesting user and the item id. */
module VaultUpdate {

  import opened Wrappers
  import opened Text
  import opened Objects
  import VaultCipher

  /** The fields of the request body; `None` is a field the body does not have
      (`undefined`). A missing body reads as one with no fields. */
  datatype UpdateBody = UpdateBody(title: Option<Value>, username: Option<Value>, url: Option<Value>,
                                   password: Option<Value>, notes: Option<Value>)

  const UpdatedAt: string := "updated_at = CURRENT_TIMESTAMP"
  const Prefix: string := "UPDATE vault_items SET "
  const WhereUser: string := " WHERE user_id = "
  const AndId: string := " AND id = "
  /** ` WHERE user_id = ? AND id = ?` */
  const Where: string := WhereUser + "?" + AndId + "?"
  const Separator: string := ", "

  /** The columns an update may set, in the order the handler considers them. */
  const Columns: seq<string> := ["title", "username", "url", "notes", "password_encrypted"]

  function IfSet(column: string, v: Option<Value>): Fields<Value> {
    if v.Some? then [(column, v.value)] else []
  }

  /** The columns the request sets, with their new values; `enc` is the encoded
      ciphertext of a new password, if there is one. */
  function Assignments(body: UpdateBody, enc: Option<string>): (a: Fields<Value>)
    ensures |a| <= |Columns|
    ensures forall i :: 0 <= i < |a| ==> a[i].0 in Columns
  {
    IfSet("title", body.title) + IfSet("username", body.username) + IfSet("url", body.url)
    + IfSet("notes", body.notes) + IfSet("password_encrypted", if enc.Some? then Some(Str(enc.value)) else None)
  }

  /** `column = ?` for every assignment. */
  function Placeholders(a: Fields<Value>): (fs: seq<string>)
    ensures |fs| == |a|
  {
    if a == [] then [] else [Placeholder(a[0].0)] + Placeholders(a[1..])
  }

  /** The `i`-th placeholder belongs to the `i`-th assignment. */
  lemma {:induction false} PlaceholderAt(a: Fields<Value>, i: nat)
    requires i < |a|
    ensures Placeholders(a)[i] == Placeholder(a[i].0)
  {
    if i > 0 {
      PlaceholderAt(a[1..], i - 1);
    }
  }

  function ValuesOf(a: Fields<Value>): (vs: seq<Value>)
    ensures |vs| == |a|
    ensures forall i :: 0 <= i < |a| ==> vs[i] == a[i].1
  {
    if a == [] then [] else [a[0].1] + ValuesOf(a[1..])
  }

  /** The position of a column in `Columns`. */
  function Rank(column: string): int {
    if column == "title" then 0
    else if column == "username" then 1
    else if column == "url" then 2
    else if column == "notes" then 3
    else if column == "password_encrypted" then 4
    else 5
  }

  /** The assignments come in the fixed column order, each column at most once,
      and only columns of the table are set. */
  lemma AssignmentsOrdered(body: UpdateBody, enc: Option<string>)
    ensures var a := Assignments(body, enc);
      (forall i :: 0 <= i < |a| ==> a[i].0 in Columns)
      && forall i, j :: 0 <= i < j < |a| ==> Rank(a[i].0) < Rank(a[j].0)
  {
  }

  lemma GetIfSet(column: string, v: Option<Value>, rest: Fields<Value>, k: string)
    ensures Get(IfSet(column, v) + rest, k) == if k == column && v.Some? then v else Get(rest, k)
  {
    if v.Some? {
      assert (IfSet(column, v) + rest)[1..] == rest;
    } else {
      assert IfSet(column, v) + rest == rest;
    }
  }

  /** A column is assigned exactly when the request sets it, and then to the
      value the request gives; the password column holds the ciphertext, and no
      other key is written. */
  lemma AssignmentsHoldRequest(body: UpdateBody, enc: Option<string>, k: string)
    ensures Get(Assignments(body, enc), k) ==
      if k == "title" then body.title
      else if k == "username" then body.username
      else if k == "url" then body.url
      else if k == "notes" then body.notes
      else if k == "password_encrypted" then (if enc.Some? then Some(Str(enc.value)) else None)
      else None
  {
    var p := IfSet("password_encrypted", if enc.Some? then Some(Str(enc.value)) else None);
    var n := IfSet("notes", body.notes) + p;
    var l := IfSet("url", body.url) + n;
    var u := IfSet("username", body.username) + l;
    assert Assignments(body, enc) == IfSet("title", body.title) + u;
    GetIfSet("title", body.title, u, k);
    GetIfSet("username", body.username, l, k);
    GetIfSet("url", body.url, n, k);
    GetIfSet("notes", body.notes, p, k);
    GetIfSet("password_encrypted", if enc.Some? then Some(Str(enc.value)) else None, [], k);
    assert p == p + [];
  }

  /** Parts holding one `?` each, joined by a separator without one, hold one
      per part. */
  lemma {:induction false} JoinCount(parts: seq<string>, sep: string)
    requires forall i :: 0 <= i < |parts| ==> Count(parts[i], '?') == 1
    requires Count(sep, '?') == 0
    ensures Count(Join(parts, sep), '?') == |parts|
  {
    if |parts| > 1 {
      JoinCount(parts[1..], sep);
      CountConcat(parts[0], sep, '?');
      CountConcat(parts[0] + sep, Join(parts[1..], sep), '?');
    } else if |parts| == 0 {
      assert Join(parts, sep) == "";
    }
  }

  lemma PlaceholderCount(column: string)
    requires '?' !in column
    ensures Count(Placeholder(column), '?') == 1
  {
    CountConcat(column, " = ?", '?');
    assert " = ?" == " = " + "?";
    CountConcat(" = ", "?", '?');
  }

  lemma PrefixCount()
    ensures Count(Prefix, '?') == 0
  {
    assert '?' !in Prefix;
  }

  lemma WhereCount()
    ensures Count(Where, '?') == 2
  {
    assert '?' !in WhereUser && '?' !in AndId;
    CountConcat(WhereUser, "?", '?');
    CountConcat(WhereUser + "?", AndId, '?');
    CountConcat(WhereUser + "?" + AndId, "?", '?');
  }

  /** The statement has one `?` per bound value: one per assignment before
      `updated_at` (which has none) and two in the `WHERE` clause. */
  lemma SqlCount(prefix: string, fields: seq<string>, last: string, sep: string, where: string)
    requires forall i :: 0 <= i < |fields| ==> Count(fields[i], '?') == 1
    requires Count(prefix, '?') == 0 && Count(last, '?') == 0 && Count(sep, '?') == 0
    requires Count(where, '?') == 2
    ensures Count(prefix + Join(fields + [last], sep) + where, '?') == |fields| + 2
  {
    var joined := Join(fields + [last], sep);
    if fields == [] {
      assert joined == last;
    } else {
      JoinCount(fields, sep);
      JoinSnoc(fields, last, sep);
      CountConcat(Join(fields, sep), sep, '?');
      CountConcat(Join(fields, sep) + sep, last, '?');
    }
    CountConcat(prefix, joined, '?');
    CountConcat(prefix + joined, where, '?');
  }

  lemma {:induction false} JoinSnoc(parts: seq<string>, last: string, sep: string)
    requires parts != []
    ensures Join(parts + [last], sep) == Join(parts, sep) + sep + last
  {
    if |parts| > 1 {
      assert (parts + [last])[1..] == parts[1..] + [last];
      JoinSnoc(parts[1..], last, sep);
    } else {
      assert (parts + [last])[1..] == [last];
    }
  }

  lemma SeparatorCount()
    ensures Count(Separator, '?') == 0
  {
    assert '?' !in Separator;
  }

  /** `column = ?` */
  function Placeholder(column: string): string {
    column + " = ?"
  }

  lemma {:induction false} PlaceholdersConcat(a: Fields<Value>, b: Fields<Value>)
    ensures Placeholders(a + b) == Placeholders(a) + Placeholders(b)
  {
    if a == [] {
      assert a + b == b;
    } else {
      assert (a + b)[0] == a[0] && (a + b)[1..] == a[1..] + b;
      PlaceholdersConcat(a[1..], b);
    }
  }

  lemma {:induction false} ValuesConcat(a: Fields<Value>, b: Fields<Value>)
    ensures ValuesOf(a + b) == ValuesOf(a) + ValuesOf(b)
  {
    if a == [] {
      assert a + b == b;
    } else {
      assert (a + b)[0] == a[0] && (a + b)[1..] == a[1..] + b;
      ValuesConcat(a[1..], b);
    }
  }

  /** Every assignment of a request contributes exactly one `?`. */
  lemma AssignmentMarks(body: UpdateBody, enc: Option<string>)
    ensures forall i :: 0 <= i < |Assignments(body, enc)| ==> Count(Placeholders(Assignments(body, enc))[i], '?') == 1
  {
    var a := Assignments(body, enc);
    AssignmentsOrdered(body, enc);
    forall i | 0 <= i < |a| ensures Count(Placeholders(a)[i], '?') == 1 {
      assert '?' !in a[i].0;
      PlaceholderAt(a, i);
      PlaceholderCount(a[i].0);
    }
  }

  /** The builder: successive pushes onto `fields` and `values`, then the SQL text. */
  method BuildUpdate(body: UpdateBody, enc: Option<string>, userId: Value, id: string)
    returns (fields: seq<string>, values: seq<Value>, sql: string)
    ensures fields == Placeholders(Assignments(body, enc)) + [UpdatedAt]
    ensures values == ValuesOf(Assignments(body, enc)) + [userId, Str(id)]
    ensures sql == Prefix + Join(fields, Separator) + Where
    ensures Count(sql, '?') == |values|
  {
    fields, values := PushFields(body, enc);
    AssignmentMarks(body, enc);
    StatementCount(Assignments(body, enc));
    fields := fields + [UpdatedAt];
    values := values + [userId, Str(id)];
    sql := Prefix + Join(fields, Separator) + Where;
  }

  /** A statement whose assignments hold one `?` each has one `?` per bound value. */
  lemma StatementCount(a: Fields<Value>)
    requires forall i :: 0 <= i < |a| ==> Count(Placeholders(a)[i], '?') == 1
    ensures Count(Prefix + Join(Placeholders(a) + [UpdatedAt], Separator) + Where, '?') == |ValuesOf(a)| + 2
  {
    UpdatedAtCount();
    PrefixCount();
    SeparatorCount();
    WhereCount();
    SqlCount(Prefix, Placeholders(a), UpdatedAt, Separator, Where);
  }

  /** The five conditional pushes of the builder. */
  method PushFields(body: UpdateBody, enc: Option<string>) returns (fields: seq<string>, values: seq<Value>)
    ensures fields == Placeholders(Assignments(body, enc))
    ensures values == ValuesOf(Assignments(body, enc))
  {
    fields, values := [], [];
    ghost var a: Fields<Value> := [];
    Push(fields, values, a, "title", body.title);
    if body.title.Some? { fields := fields + [Placeholder("title")]; values := values + [body.title.value]; }
    assert a + IfSet("title", body.title) == IfSet("title", body.title);
    a := IfSet("title", body.title);
    Push(fields, values, a, "username", body.username);
    if body.username.Some? { fields := fields + [Placeholder("username")]; values := values + [body.username.value]; }
    a := a + IfSet("username", body.username);
    Push(fields, values, a, "url", body.url);
    if body.url.Some? { fields := fields + [Placeholder("url")]; values := values + [body.url.value]; }
    a := a + IfSet("url", body.url);
    Push(fields, values, a, "notes", body.notes);
    if body.notes.Some? { fields := fields + [Placeholder("notes")]; values := values + [body.notes.value]; }
    a := a + IfSet("notes", body.notes);
    ghost var password := if enc.Some? then Some(Str(enc.value)) else None;
    Push(fields, values, a, "password_encrypted", password);
    if enc.Some? { fields := fields + [Placeholder("password_encrypted")]; values := values + [Str(enc.value)]; }
    a := a + IfSet("password_encrypted", password);
  }

  /** One `if (x !== undefined) { fields.push(...); values.push(x); }`. */
  lemma Push(fields: seq<string>, values: seq<Value>, a: Fields<Value>, column: string, v: Option<Value>)
    requires fields == Placeholders(a) && values == ValuesOf(a)
    ensures (if v.Some? then fields + [Placeholder(column)] else fields) == Placeholders(a + IfSet(column, v))
    ensures (if v.Some? then values + [v.value] else values) == ValuesOf(a + IfSet(column, v))
  {
    PlaceholdersConcat(a, IfSet(column, v));
    ValuesConcat(a, IfSet(column, v));
    if v.Some? {
      assert Placeholders(IfSet(column, v)) == [Placeholder(column)];
    } else {
      assert a + IfSet(column, v) == a;
    }
  }

  lemma UpdatedAtCount()
    ensures Count(UpdatedAt, '?') == 0
  {
    assert '?' !in UpdatedAt;
  }

  /** The handler's outcome short of the database: `500 Vault not configured`,
      or the statement and its parameters. */
  datatype Outcome = NotConfigured | Statement(sql: string, values: seq<Value>)

  /** The new password's encoded ciphertext, if the request sets a string
      password; `encode` is the base64 encoding of the stored blob. */
  function EncryptedPassword(c: VaultCipher.Aead, key: VaultCipher.Bytes, iv: VaultCipher.Bytes,
                             encode: VaultCipher.Bytes -> string, body: UpdateBody): (r: Option<string>)
    requires |iv| == VaultCipher.IvLength
    ensures r.Some? <==> body.password.Some? && body.password.value.Str? && |key| == VaultCipher.KeyLength
  {
    if body.password.Some? && body.password.value.Str? then
      match VaultCipher.EncryptSecret(c, key, iv, body.password.value.s)
      case None => None
      case Some(blob) => Some(encode(blob))
    else None
  }

  /** `PUT /vault/:id` for user `userId`. Only a string password is encrypted;
      if that fails (no 32-byte key, or an empty encoding) nothing is updated. */
  method UpdateVaultItem(c: VaultCipher.Aead, key: VaultCipher.Bytes, iv: VaultCipher.Bytes,
                         encode: VaultCipher.Bytes -> string, body: UpdateBody, userId: Value, id: string)
    returns (r: Outcome)
    requires |iv| == VaultCipher.IvLength
    ensures r.NotConfigured? <==>
      body.password.Some? && body.password.value.Str?
      && (|key| != VaultCipher.KeyLength || EncryptedPassword(c, key, iv, encode, body) == Some(""))
    ensures r.Statement? ==>
      var enc := EncryptedPassword(c, key, iv, encode, body);
      r.values == ValuesOf(Assignments(body, enc)) + [userId, Str(id)]
      && r.sql == Prefix + Join(Placeholders(Assignments(body, enc)) + [UpdatedAt], Separator) + Where
      && Count(r.sql, '?') == |r.values|
  {
    var enc: Option<string> := None;
    if body.password.Some? && body.password.value.Str? {
      var blob := VaultCipher.EncryptSecret(c, key, iv, body.password.value.s);
      enc := if blob.Some? then Some(encode(blob.value)) else None;
      if enc == None || enc == Some("") {
        return NotConfigured;
      }
    }
    var fields, values, sql := BuildUpdate(body, enc, userId, id);
    return Statement(sql, values);
  }

  /** Every statement the handler runs is scoped to the requesting user and the
      item: the last two parameters are the user id and the item id, bound by
      the two `?` of the `WHERE` clause. */
  lemma ScopedToOwner(body: UpdateBody, enc: Option<string>, userId: Value, id: string)
    ensures var values := ValuesOf(Assignments(body, enc)) + [userId, Str(id)];
      |values| >= 2 && values[|values| - 2] == userId && values[|values| - 1] == Str(id)
    ensures EndsWith(Prefix + Join(Placeholders(Assignments(body, enc)) + [UpdatedAt], Separator) + Where, Where)
  {
  }

  /** A request that sets nothing still updates `updated_at`: the `No updates`
      branch of the handler cannot be reached. */
  lemma EmptyRequestTouchesTimestamp(userId: Value, id: string)
    ensures Placeholders(Assignments(UpdateBody(None, None, None, None, None), None)) + [UpdatedAt] == [UpdatedAt]
  {
  }
}
