/**
 * `set_default_language`: the two table files as the state of a `Database`
 * object, changed in place by the user-scope and guild-scope updates.
 */
module Store {
  import opened Wrappers
  import opened Catalog
  import opened Preferences
  import opened Resolver

  /** How a `set_default_language` call ends. */
  datatype SetOutcome =
    | Saved             // the table file was rewritten
    | NotInServer       // the "only in a server" reply was sent; nothing written
    | LanguageNotFound  // raised before any table access
    | GuildIsNoneRaised // raised from inside the handler, after the header was written

  /**
   * `dataframe.loc[dataframe[key] == id, "language"] = code` on a frame read
   * from the file: every matching row is overwritten in place.
   */
  method AssignLanguageWhere(df: array<Row>, id: int, code: string)
    modifies df
    ensures df[..] == Relabel(old(df[..]), id, code)
  {
    for j := 0 to df.Length
      invariant df[..j] == Relabel(old(df[..]), id, code)[..j]
      invariant df[j..] == old(df[..])[j..]
    {
      if df[j].key == id {
        df[j] := df[j].(language := code);
      }
    }
  }

  /**
   * The `try`/`except` body shared by both scopes, after validation: read the
   * table, query the key column, prepend or relabel, write it back; any
   * failure goes to the handler, which writes the header and one row.
   */
  method WriteUpsert(keyColumn: string, t: TableFile, id: int, code: string) returns (written: TableFile)
    ensures written == Upsert(keyColumn, t, id, code)
    ensures Lookup(written, keyColumn, id) == Success(Some(code))
  {
    UpsertReadBack(keyColumn, t, id, code);
    if t.Missing? || t.keyColumn != keyColumn {
      // read_csv or query raised: the except handler recreates the file
      return Present(keyColumn, [Row(id, code)]);
    }
    var rows := t.rows;
    if !HasKey(rows, id) {
      return Present(t.keyColumn, [Row(id, code)] + rows);
    }
    var df := new Row[|rows|](i requires 0 <= i < |rows| => rows[i]);
    assert df[..] == rows;
    AssignLanguageWhere(df, id, code);
    written := Present(t.keyColumn, df[..]);
  }

  class Database {
    /** `database/member.csv` */
    var member: TableFile
    /** `database/server.csv` */
    var server: TableFile

    constructor (member: TableFile, server: TableFile)
      ensures this.member == member && this.server == server
    {
      this.member := member;
      this.server := server;
    }

    /** The language an interaction is rendered in, from the current tables. */
    function Resolve(copy: Copy, ctx: Context, defaultCode: string): (r: Result<string, Fault>)
      reads this
      ensures r.Failure? <==> member.Missing? || member.keyColumn != MemberKey
      ensures r.Success? && HasKey(member.rows, ctx.author) ==> Some(r.value) == FirstLanguage(member.rows, ctx.author)
    {
      ReadUserLanguage(copy, member, server, ctx, defaultCode)
    }

    /**
     * User scope (the same in both copies): validate, then upsert the row
     * keyed by the author under `discordId`. The server table is untouched.
     */
    method SetUserLanguage(index: Index, author: int, code: string) returns (outcome: SetOutcome)
      modifies this
      ensures server == old(server)
      ensures !LangExists(index, code) ==> outcome == LanguageNotFound && member == old(member)
      ensures LangExists(index, code) ==> outcome == Saved && member == Upsert(MemberKey, old(member), author, code)
      ensures outcome == Saved ==> forall copy, g, d :: Resolve(copy, Context(author, g), d) == Success(code)
      ensures AllValid(index, old(member)) ==> AllValid(index, member)
    {
      if !LangExists(index, code) {
        return LanguageNotFound;
      }
      if AllValid(index, member) {
        UpsertKeepsValid(index, MemberKey, member, author, code);
      }
      member := WriteUpsert(MemberKey, member, author, code);
      outcome := Saved;
      forall copy, g, d ensures Resolve(copy, Context(author, g), d) == Success(code) {
        UserRoundTrip(copy, old(member), server, author, g, code, d);
      }
    }

    /**
     * Guild scope. The Ryuuryuusei copy replies and stops when there is no
     * guild, before validating. The Modules copy validates, then fails on
     * `ctx.guild.id` inside `try`, and again inside the handler after it has
     * opened the file for writing and written the header: the server table is
     * left as a bare header.
     */
    method SetGuildLanguage(copy: Copy, index: Index, guild: Option<int>, code: string) returns (outcome: SetOutcome)
      modifies this
      ensures member == old(member)
      ensures copy == Ryuuryuusei && guild.None? ==> outcome == NotInServer && server == old(server)
      ensures (copy == Modules || guild.Some?) && !LangExists(index, code) ==>
        outcome == LanguageNotFound && server == old(server)
      ensures copy == Modules && guild.None? && LangExists(index, code) ==>
        outcome == GuildIsNoneRaised && server == Present(ServerKey, [])
      ensures guild.Some? && LangExists(index, code) ==>
        outcome == Saved && server == Upsert(ServerKey, old(server), guild.value, code)
      ensures AllValid(index, old(server)) ==> AllValid(index, server)
    {
      if copy == Ryuuryuusei && guild.None? {
        return NotInServer;
      }
      if !LangExists(index, code) {
        return LanguageNotFound;
      }
      match guild
      case None =>
        // open(..., "w") truncates, writer.writerow(header), then ctx.guild.id raises
        server := Present(ServerKey, []);
        outcome := GuildIsNoneRaised;
      case Some(g) =>
        if AllValid(index, server) {
          UpsertKeepsValid(index, ServerKey, server, g, code);
        }
        server := WriteUpsert(ServerKey, server, g, code);
        outcome := Saved;
    }
  }
}
