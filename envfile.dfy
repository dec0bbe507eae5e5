/** Persisting generated secrets to the `.env` file: the current text is read as
    `KEY=value` lines into an insertion-ordered map, the three secrets are set
    (replacing earlier values in place, or appended), and the map is written
    back one `KEY=value` per line. */
module EnvFile {

  import opened Wrappers
  import opened Text
  import opened Objects

  type Entries = Fields<string>

  /** Drops one `\r` at the end of a line. */
  function DropCr(line: string): string {
    if |line| > 0 && line[|line| - 1] == '\r' then line[..|line| - 1] else line
  }

  /** `text.split(/\r?\n/)`: split at every `\n`, dropping a `\r` just before it. */
  function SplitLines(text: string): (lines: seq<string>)
    ensures |lines| == Count(text, '\n') + 1
  {
    var pieces := Split(text, '\n');
    seq(|pieces|, i requires 0 <= i < |pieces| => if i < |pieces| - 1 then DropCr(pieces[i]) else pieces[i])
  }

  /** `.filter(Boolean)`: the non-empty lines, in order. */
  function NonEmpty(lines: seq<string>): (r: seq<string>)
    ensures forall i :: 0 <= i < |r| ==> r[i] != ""
    ensures forall l :: l in r <==> l in lines && l != ""
    ensures |r| <= |lines|
  {
    if lines == [] then []
    else (if lines[0] != "" then [lines[0]] else []) + NonEmpty(lines[1..])
  }

  /** A line as a pair: the key before the first `=` and the value after it; a
      line without `=` is a key with an empty value. */
  function ParseLine(line: string): (kv: (string, string))
    ensures '=' !in kv.0
    ensures '=' in line ==> line == kv.0 + "=" + kv.1
    ensures '=' !in line ==> kv == (line, "")
  {
    match IndexOf(line, '=')
    case None => (line, "")
    case Some(i) =>
      assert line == line[..i] + "=" + line[i + 1..];
      (line[..i], line[i + 1..])
  }

  /** `new Map(lines.map(...))`: a later line with the same key replaces the
      value of the earlier one, which keeps its position. */
  function ParseEnv(text: string): (m: Entries)
    ensures UniqueKeys(m)
    ensures forall k :: k in Keys(m) ==> '=' !in k
    ensures |m| <= Count(text, '\n') + 1
  {
    var lines := NonEmpty(SplitLines(text));
    var d := seq(|lines|, i requires 0 <= i < |lines| => ParseLine(lines[i]));
    AssignUnique([], d);
    AssignKeySet([], d);
    assert forall k :: k in Keys(d) ==> '=' !in k by {
      forall k | k in Keys(d) ensures '=' !in k {
        var i :| 0 <= i < |d| && Keys(d)[i] == k;
        KeysAt(d, i);
      }
    }
    Assign([], d)
  }

  /** `${k}=${v}` for every entry. */
  function LinesOf(m: Entries): (lines: seq<string>)
    ensures |lines| == |m|
  {
    seq(|m|, i requires 0 <= i < |m| => m[i].0 + "=" + m[i].1)
  }

  /** `Array.from(map.entries()).map(([k, v]) => `${k}=${v}`).join('\n')`. */
  function WriteEnv(m: Entries): (text: string)
    ensures m != [] && (forall i :: 0 <= i < |m| ==> '\n' !in m[i].0 && '\n' !in m[i].1) ==>
              Split(text, '\n') == LinesOf(m)
  {
    LinesSplit(m);
    Join(LinesOf(m), "\n")
  }

  /** Lines without a line break in them split back at the breaks joining them. */
  lemma LinesSplit(m: Entries)
    ensures m != [] && (forall i :: 0 <= i < |m| ==> '\n' !in m[i].0 && '\n' !in m[i].1) ==>
              Split(Join(LinesOf(m), "\n"), '\n') == LinesOf(m)
  {
    var lines := LinesOf(m);
    if m != [] && (forall i :: 0 <= i < |m| ==> '\n' !in m[i].0 && '\n' !in m[i].1) {
      forall i | 0 <= i < |lines| ensures '\n' !in lines[i] {
        assert lines[i] == m[i].0 + "=" + m[i].1;
      }
      SplitJoin(lines, '\n');
    }
  }

  /** The text written back: the current text (empty when it cannot be read)
      with the three secrets set. */
  function Merge(current: string, jwtSecret: string, vaultKey: string, dbPath: string): (text: string)
    ensures WellFormed(Merged(current, jwtSecret, vaultKey, dbPath)) ==>
              ParseEnv(text) == Merged(current, jwtSecret, vaultKey, dbPath)
  {
    var m := Merged(current, jwtSecret, vaultKey, dbPath);
    if WellFormed(m) then ReadBack(m); WriteEnv(m) else WriteEnv(m)
  }

  /** A key or value that survives a round trip: no line break in it, and no `=`
      in a key. */
  predicate GoodKey(k: string) {
    '=' !in k && '\n' !in k && '\r' !in k
  }

  predicate GoodValue(v: string) {
    '\n' !in v && '\r' !in v
  }

  predicate WellFormed(m: Entries) {
    UniqueKeys(m) && forall i :: 0 <= i < |m| ==> GoodKey(m[i].0) && GoodValue(m[i].1)
  }

  // ---------------------------------------------------------------------------
  // Properties

  /** Each line is read at its first `=`: the key never holds one. */
  lemma ParseLineFirstEquals(k: string, v: string)
    requires '=' !in k
    ensures ParseLine(k + "=" + v) == (k, v)
  {
    var line := k + "=" + v;
    assert line[|k|] == '=' && line[..|k|] == k;
    var r := ParseLine(line);
    assert '=' in line;
    assert r.0 == line[..|r.0|];
  }

  /** Reading back what was written gives the same entries, in the same order. */
  lemma ReadBack(m: Entries)
    requires WellFormed(m)
    ensures ParseEnv(WriteEnv(m)) == m
  {
    var lines := LinesOf(m);
    if m == [] {
      assert WriteEnv(m) == "";
      assert Split("", '\n') == [""];
      assert SplitLines("") == [""];
      assert NonEmpty([""]) == [];
    } else {
      ReadBackLines(m);
      NonEmptyAll(lines);
      ReadBackPairs(m);
      AssignFresh(m);
    }
  }

  lemma ReadBackLines(m: Entries)
    requires WellFormed(m) && m != []
    ensures SplitLines(WriteEnv(m)) == LinesOf(m)
    ensures forall i :: 0 <= i < |m| ==> LinesOf(m)[i] != ""
  {
    var lines := LinesOf(m);
    forall i | 0 <= i < |lines| ensures '\r' !in lines[i] && lines[i] != "" {
      assert lines[i] == m[i].0 + "=" + m[i].1;
    }
    SplitLinesNoCr(WriteEnv(m), lines);
  }

  /** Lines without a `\r` lose nothing to `\r?\n`. */
  lemma SplitLinesNoCr(text: string, lines: seq<string>)
    requires Split(text, '\n') == lines
    requires forall i :: 0 <= i < |lines| ==> '\r' !in lines[i]
    ensures SplitLines(text) == lines
  {
    forall i | 0 <= i < |lines| ensures DropCr(lines[i]) == lines[i] {
      if |lines[i]| > 0 {
        assert lines[i][|lines[i]| - 1] in lines[i];
      }
    }
  }

  lemma ReadBackPairs(m: Entries)
    requires WellFormed(m)
    ensures var lines := LinesOf(m);
      seq(|lines|, i requires 0 <= i < |lines| => ParseLine(lines[i])) == m
  {
    var lines := LinesOf(m);
    var parsed := seq(|lines|, i requires 0 <= i < |lines| => ParseLine(lines[i]));
    forall i | 0 <= i < |m| ensures parsed[i] == m[i] {
      ParseLineFirstEquals(m[i].0, m[i].1);
    }
  }

  lemma {:induction false} NonEmptyAll(lines: seq<string>)
    requires forall i :: 0 <= i < |lines| ==> lines[i] != ""
    ensures NonEmpty(lines) == lines
  {
    if lines != [] {
      NonEmptyAll(lines[1..]);
      assert [lines[0]] + lines[1..] == lines;
    }
  }

  /** Writing pairs with distinct keys into an empty map gives those pairs. */
  lemma {:induction false} AssignFresh(d: Entries)
    requires UniqueKeys(d)
    ensures Assign([], d) == d
  {
    if d != [] {
      var d', x := d[..|d| - 1], d[|d| - 1];
      KeysConcat(d', [x]);
      assert d == d' + [x];
      assert UniqueKeys(d') by {
        var ks, ks' := Keys(d), Keys(d');
        forall i, j | 0 <= i < j < |ks'| ensures ks'[i] != ks'[j] {
          assert ks'[i] == ks[i] && ks'[j] == ks[j];
        }
      }
      assert x.0 !in Keys(d') by {
        var ks := Keys(d);
        forall i | 0 <= i < |Keys(d')| ensures Keys(d')[i] != x.0 {
          assert Keys(d')[i] == ks[i] && ks[|ks| - 1] == x.0;
        }
      }
      AssignFresh(d');
      PutAppends(d', x.0, x.1);
    }
  }

  /** Writing a key that is not present appends it. */
  lemma {:induction false} PutAppends<V>(o: Fields<V>, k: string, v: V)
    requires k !in Keys(o)
    ensures Put(o, k, v) == o + [(k, v)]
  {
    if o != [] {
      assert Keys(o) == [o[0].0] + Keys(o[1..]);
      PutAppends(o[1..], k, v);
      assert [o[0]] + (o[1..] + [(k, v)]) == o + [(k, v)];
    }
  }

  /** After the merge the file holds the three secrets, and every other key of
      the old file with the value of its last line. */
  lemma MergeHolds(current: string, jwtSecret: string, vaultKey: string, dbPath: string, k: string)
    ensures Get(Merged(current, jwtSecret, vaultKey, dbPath), k) ==
        if k == "DB_PATH" then Some(dbPath)
        else if k == "VAULT_KEY" then Some(vaultKey)
        else if k == "JWT_SECRET" then Some(jwtSecret)
        else
          var lines := NonEmpty(SplitLines(current));
          Last(seq(|lines|, i requires 0 <= i < |lines| => ParseLine(lines[i])), k)
  {
    var lines := NonEmpty(SplitLines(current));
    var d := seq(|lines|, i requires 0 <= i < |lines| => ParseLine(lines[i]));
    var m0 := ParseEnv(current);
    var m1 := Put(m0, "JWT_SECRET", jwtSecret);
    var m2 := Put(m1, "VAULT_KEY", vaultKey);
    PutGet(m2, "DB_PATH", dbPath, k);
    PutGet(m1, "VAULT_KEY", vaultKey, k);
    PutGet(m0, "JWT_SECRET", jwtSecret, k);
    AssignGet([], d, k);
  }

  /** Keys already in the file keep their position; the secrets that were
      missing are appended after them. */
  lemma MergeKeepsOrder(current: string, jwtSecret: string, vaultKey: string, dbPath: string)
    ensures var m0, m := ParseEnv(current), Merged(current, jwtSecret, vaultKey, dbPath);
      |Keys(m0)| <= |Keys(m)| && Keys(m)[..|Keys(m0)|] == Keys(m0)
  {
    SecretsKeepOrder(ParseEnv(current), jwtSecret, vaultKey, dbPath);
  }

  lemma SecretsKeepOrder(m0: Entries, jwtSecret: string, vaultKey: string, dbPath: string)
    ensures var m := Put(Put(Put(m0, "JWT_SECRET", jwtSecret), "VAULT_KEY", vaultKey), "DB_PATH", dbPath);
      |Keys(m0)| <= |Keys(m)| && Keys(m)[..|Keys(m0)|] == Keys(m0)
  {
    var m1 := Put(m0, "JWT_SECRET", jwtSecret);
    var m2 := Put(m1, "VAULT_KEY", vaultKey);
    PutKeys(m0, "JWT_SECRET", jwtSecret);
    PutKeys(m1, "VAULT_KEY", vaultKey);
    PutKeys(m2, "DB_PATH", dbPath);
  }

  /** A `\r\n` line break is read like a `\n` one. */
  lemma CrLfLikeLf(a: string, b: string)
    requires '\n' !in a && '\r' !in a && '\n' !in b
    ensures SplitLines(a + "\r\n" + b) == SplitLines(a + "\n" + b)
  {
    SplitJoin([a + "\r", b], '\n');
    SplitJoin([a, b], '\n');
    assert Join([a + "\r", b], "\n") == a + "\r\n" + b;
    assert Join([a, b], "\n") == a + "\n" + b;
  }

  /** The entries the merge writes. */
  function Merged(current: string, jwtSecret: string, vaultKey: string, dbPath: string): (m: Entries)
    ensures Get(m, "JWT_SECRET") == Some(jwtSecret)
    ensures Get(m, "VAULT_KEY") == Some(vaultKey)
    ensures Get(m, "DB_PATH") == Some(dbPath)
    ensures UniqueKeys(m)
  {
    var m0 := ParseEnv(current);
    var m1 := Put(m0, "JWT_SECRET", jwtSecret);
    var m2 := Put(m1, "VAULT_KEY", vaultKey);
    PutGet(m2, "DB_PATH", dbPath, "JWT_SECRET");
    PutGet(m1, "VAULT_KEY", vaultKey, "JWT_SECRET");
    PutGet(m2, "DB_PATH", dbPath, "VAULT_KEY");
    PutUnique(m0, "JWT_SECRET", jwtSecret);
    PutUnique(m1, "VAULT_KEY", vaultKey);
    PutUnique(m2, "DB_PATH", dbPath);
    Put(m2, "DB_PATH", dbPath)
  }

  /** Persisting the same secrets a second time leaves the file as the first
      time wrote it. */
  lemma MergeIdempotent(current: string, jwtSecret: string, vaultKey: string, dbPath: string)
    requires WellFormed(Merged(current, jwtSecret, vaultKey, dbPath))
    ensures Merge(Merge(current, jwtSecret, vaultKey, dbPath), jwtSecret, vaultKey, dbPath)
            == Merge(current, jwtSecret, vaultKey, dbPath)
  {
    var m := Merged(current, jwtSecret, vaultKey, dbPath);
    var text := Merge(current, jwtSecret, vaultKey, dbPath);
    assert text == WriteEnv(m);
    ReadBack(m);
    MergeHolds(current, jwtSecret, vaultKey, dbPath, "JWT_SECRET");
    MergeHolds(current, jwtSecret, vaultKey, dbPath, "VAULT_KEY");
    MergeHolds(current, jwtSecret, vaultKey, dbPath, "DB_PATH");
    PutSame(m, "JWT_SECRET", jwtSecret);
    PutSame(m, "VAULT_KEY", vaultKey);
    PutSame(m, "DB_PATH", dbPath);
  }
}
