/** The string-building half of the database bootstrap: the libpq-style
    connection string handed to the driver and the descriptor handed to the
    secondary data-access layer. */
module Connection {
  import opened Text

  /** The `database` section of the configuration, as read. */
  datatype DatabaseSettings = DatabaseSettings(host: string, user: string, password: string, database: string)

  /** The descriptor passed to the data-access layer. */
  datatype DataSourceConfig = DataSourceConfig(
    drivername: string, host: string, port: string,
    username: string, password: string, database: string)

  /** One `key='value'` clause of a connection string. */
  datatype Clause = Clause(key: string, value: string)

  datatype Option<T> = None | Some(value: T)

  /** The host actually used: an empty setting falls back to `localhost`. */
  function EffectiveHost(host: string): (h: string)
    ensures h != ""
    ensures host != "" ==> h == host
  {
    if host == "" then "localhost" else host
  }

  /** The connection string: host, database and user always, the password
      clause only when a password is configured. It is exactly the rendering
      of those clauses, in that order. */
  function ConnectionString(s: DatabaseSettings): (r: string)
    ensures r == Render(Clauses(s))
  {
    var base := "host='" + EffectiveHost(s.host) + "' dbname='" + s.database + "' user='" + s.user + "'";
    var r := if s.password != "" then base + " password='" + s.password + "'" else base;
    if s.password != "" then
      var pw := Clause("password", s.password);
      BaseIsRendered(s, [pw]);
      assert Render([pw]) == RenderClause(pw);
      assert " password='" == " " + "password='";
      assert Clauses(s) == BaseClauses(s) + [pw];
      r
    else
      BaseIsRendered(s, []);
      assert Clauses(s) == BaseClauses(s) + [];
      r
  }

  /** The descriptor for the data-access layer: the postgres driver on port
      5432, naming the same host, database, user and password as the clauses
      of the connection string. */
  function DataSourceSettings(s: DatabaseSettings): (d: DataSourceConfig)
    ensures d.drivername == "postgres" && d.port == "5432"
    ensures Clauses(s)
            == [Clause("host", d.host), Clause("dbname", d.database), Clause("user", d.username)]
               + (if d.password != "" then [Clause("password", d.password)] else [])
  {
    DataSourceConfig("postgres", EffectiveHost(s.host), "5432", s.user, s.password, s.database)
  }

  /** The clauses a connection string is meant to carry, in order. */
  function Clauses(s: DatabaseSettings): seq<Clause> {
    BaseClauses(s) + (if s.password != "" then [Clause("password", s.password)] else [])
  }

  function RenderClause(c: Clause): string {
    c.key + "='" + c.value + "'"
  }

  /** Clauses written one after another, separated by single spaces. */
  function Render(cs: seq<Clause>): string
    decreases |cs|
  {
    if |cs| == 0 then ""
    else if |cs| == 1 then RenderClause(cs[0])
    else RenderClause(cs[0]) + " " + Render(cs[1..])
  }

  /** Reads one clause off the front of `s`: a key up to the first `=`, then
      a value between single quotes; gives the clause and what follows it. */
  function ParseClause(s: string): (r: Option<(Clause, string)>)
    ensures r.Some? ==> |r.value.1| < |s|
  {
    var i := FirstIndex(s, '=');
    if i + 1 >= |s| || s[i + 1] != '\'' then None
    else
      var body := s[i + 2..];
      var j := FirstIndex(body, '\'');
      if j == |body| then None
      else Some((Clause(s[..i], body[..j]), body[j + 1..]))
  }

  /** Reads a connection string back into its clauses, which are separated
      by single spaces. */
  function ParseClauses(s: string): Option<seq<Clause>>
    decreases |s|
  {
    match ParseClause(s)
    case None => None
    case Some((c, after)) =>
      if after == [] then Some([c])
      else if after[0] != ' ' then None
      else
        match ParseClauses(after[1..])
        case None => None
        case Some(cs) => Some([c] + cs)
  }

  /** A clause's key can be read back when it has no `=`, its value when it
      has no quote. */
  predicate Readable(c: Clause) {
    '=' !in c.key && '\'' !in c.value
  }

  /** Reading one rendered clause followed by `tail` finds the key and the
      quoted rest. */
  lemma ParseOneKey(c: Clause, tail: string)
    requires Readable(c)
    ensures var s := RenderClause(c) + tail;
            && FirstIndex(s, '=') == |c.key|
            && |c.key| + 2 <= |s| && s[|c.key| + 1] == '\'' && s[..|c.key|] == c.key
            && s[|c.key| + 2..] == c.value + ("'" + tail)
  {
    var x := c.value + ("'" + tail);
    var rest := "='" + x;
    RenderClauseSplit(c, tail);
    FirstIndexAfterPrefix(c.key, rest, '=');
    ConcatParts(c.key, rest);
    ConcatParts("='", x);
  }

  /** A rendered clause followed by `tail` is its key, `='`, and the rest. */
  lemma RenderClauseSplit(c: Clause, tail: string)
    ensures RenderClause(c) + tail == c.key + ("='" + (c.value + ("'" + tail)))
  {
  }

  /** The two parts of a concatenation are read back by slicing. */
  lemma ConcatParts<T>(a: seq<T>, b: seq<T>)
    ensures (a + b)[..|a|] == a && (a + b)[|a|..] == b
    ensures forall i :: 0 <= i < |b| ==> (a + b)[|a| + i] == b[i]
  {
  }

  /** Reading the quoted value of a clause that is followed by `tail`. */
  lemma ParseOneValue(value: string, tail: string)
    requires '\'' !in value
    ensures var body := value + ("'" + tail);
            && FirstIndex(body, '\'') == |value|
            && body[..|value|] == value && body[|value| + 1..] == tail
  {
    FirstIndexAfterPrefix(value, "'" + tail, '\'');
  }

  /** A readable clause is read back off the front of its rendering. */
  lemma ParseClauseRender(c: Clause, tail: string)
    requires Readable(c)
    ensures ParseClause(RenderClause(c) + tail) == Some((c, tail))
  {
    var s := RenderClause(c) + tail;
    ParseOneKey(c, tail);
    ParseOneValue(c.value, tail);
    var body := s[|c.key| + 2..];
    assert Clause(s[..|c.key|], body[..|c.value|]) == c;
  }

  /** Rendering and then parsing gives back the clauses. */
  lemma {:induction false} ParseRender(cs: seq<Clause>)
    requires |cs| >= 1
    requires forall k :: 0 <= k < |cs| ==> Readable(cs[k])
    ensures ParseClauses(Render(cs)) == Some(cs)
    decreases |cs|
  {
    if |cs| == 1 {
      assert [cs[0]] == cs;
      ParseRenderSingle(cs[0]);
    } else {
      ParseRender(cs[1..]);
      ParseRenderCons(cs);
    }
  }

  /** A readable clause rendered in front of clauses that read back reads
      back together with them. */
  lemma ParseRenderCons(cs: seq<Clause>)
    requires |cs| >= 2 && Readable(cs[0])
    requires ParseClauses(Render(cs[1..])) == Some(cs[1..])
    ensures ParseClauses(Render(cs)) == Some(cs)
  {
    var c, rest := cs[0], cs[1..];
    assert [c] + rest == cs;
    var tail := " " + Render(rest);
    RenderCons(c, rest);
    ParseClauseRender(c, tail);
    assert tail[1..] == Render(rest);
    ParseClausesCons(RenderClause(c) + tail, c, tail, rest);
  }

  /** A single readable clause is read back from its rendering. */
  lemma ParseRenderSingle(c: Clause)
    requires Readable(c)
    ensures ParseClauses(Render([c])) == Some([c])
  {
    ParseClauseRender(c, "");
    assert RenderClause(c) + "" == Render([c]);
    ParseClausesLast(Render([c]), c);
  }

  /** A string that is one clause and nothing more reads as that clause. */
  lemma ParseClausesLast(s: string, c: Clause)
    requires ParseClause(s) == Some((c, []))
    ensures ParseClauses(s) == Some([c])
  {
  }

  /** A clause followed by a space and readable clauses reads as all of them. */
  lemma ParseClausesCons(s: string, c: Clause, after: string, cs: seq<Clause>)
    requires ParseClause(s) == Some((c, after))
    requires |after| > 0 && after[0] == ' ' && ParseClauses(after[1..]) == Some(cs)
    ensures ParseClauses(s) == Some([c] + cs)
  {
  }

  /** Rendering a clause in front of others puts one space after it. */
  lemma RenderCons(c: Clause, rest: seq<Clause>)
    requires |rest| >= 1
    ensures Render([c] + rest) == RenderClause(c) + (" " + Render(rest))
  {
    assert ([c] + rest)[1..] == rest;
  }

  /** The three clauses present in every connection string. */
  function BaseClauses(s: DatabaseSettings): seq<Clause> {
    [Clause("host", EffectiveHost(s.host)), Clause("dbname", s.database), Clause("user", s.user)]
  }

  /** The fixed format splits into three clauses joined by spaces. */
  lemma FormatPieces(h: string, d: string, u: string)
    ensures "host='" + h + "' dbname='" + d + "' user='" + u + "'"
         == RenderClause(Clause("host", h)) + (" " + (RenderClause(Clause("dbname", d)) + (" " + RenderClause(Clause("user", u)))))
  {
    assert "host='" == "host" + "='";
    assert "' dbname='" == "'" + (" " + ("dbname" + "='"));
    assert "' user='" == "'" + (" " + ("user" + "='"));
    Regroup("host", "dbname", "user", "='", "'", " ", h, d, u);
  }

  /** Regrouping three `key`, `=`, quoted value parts with spaces between. */
  lemma Regroup(k1: string, k2: string, k3: string, e: string, q: string, sp: string, h: string, d: string, u: string)
    ensures ((((((k1 + e) + h) + (q + (sp + (k2 + e)))) + d) + (q + (sp + (k3 + e)))) + u) + q
         == (((k1 + e) + h) + q) + (sp + ((((k2 + e) + d) + q) + (sp + (((k3 + e) + u) + q))))
  {
  }

  /** The host, database and user part renders as the fixed format. */
  lemma BaseIsRendered(s: DatabaseSettings, more: seq<Clause>)
    ensures var tail := if more == [] then "" else " " + Render(more);
            Render(BaseClauses(s) + more)
            == "host='" + EffectiveHost(s.host) + "' dbname='" + s.database + "' user='" + s.user + "'" + tail
  {
    var cs := BaseClauses(s);
    var host, db, user := cs[0], cs[1], cs[2];
    var tail := if more == [] then "" else " " + Render(more);
    if more == [] {
      assert Render([user]) == RenderClause(user);
    } else {
      RenderCons(user, more);
    }
    var ru := Render([user] + more);
    assert ru == RenderClause(user) + tail;
    RenderCons(db, [user] + more);
    RenderCons(host, [db] + ([user] + more));
    assert cs + more == [host] + ([db] + ([user] + more));
    FormatPieces(EffectiveHost(s.host), s.database, s.user);
    AppendTail(RenderClause(host), RenderClause(db), RenderClause(user), tail);
  }

  /** Appending after the last of three space-separated parts. */
  lemma AppendTail(h: string, d: string, u: string, tail: string)
    ensures (h + (" " + (d + (" " + u)))) + tail == h + (" " + (d + (" " + (u + tail))))
  {
  }

  /** No configured value carries a single quote. */
  predicate QuoteFree(s: DatabaseSettings) {
    '\'' !in s.host && '\'' !in s.user && '\'' !in s.password && '\'' !in s.database
  }

  /** When no value carries a quote, the connection string names exactly the
      descriptor's host, database and user, and names a password exactly when
      the descriptor has a non-empty one. */
  lemma ConnectionStringAgreesWithDescriptor(s: DatabaseSettings)
    requires QuoteFree(s)
    ensures var d := DataSourceSettings(s);
            && d.host == (if s.host == "" then "localhost" else s.host)
            && ParseClauses(ConnectionString(s)) == Some(
                 [Clause("host", d.host), Clause("dbname", d.database), Clause("user", d.username)]
                 + (if d.password != "" then [Clause("password", d.password)] else []))
  {
    var cs := Clauses(s);
    assert '\'' !in "localhost";
    assert forall k :: 0 <= k < |cs| ==> Readable(cs[k]);
    ParseRender(cs);
  }
}
