/**
 * `read_user_language`: the user's row wins, then the server's row, then the
 * default code; the two copies of the module differ in how a missing guild is
 * handled.
 */
module Resolver {
  import opened Wrappers
  import opened Preferences

  /** Which copy of the module: `ryuuryuusei/modules/i18n.py` or `modules/i18n.py`. */
  datatype Copy = Ryuuryuusei | Modules

  /** The interaction: the author's id and, inside a server, the server's id. */
  datatype Context = Context(author: int, guild: Option<int>)

  /** The column the server table is READ by: the user table's, not `ServerKey`. */
  const ServerReadColumn: string := "discordId"

  /**
   * The guarded part of the read (inside `try`); any fault in it is swallowed
   * by the caller. The Ryuuryuusei copy returns early on a missing guild; the
   * Modules copy reads the table, selects the column, and only then touches
   * `ctx.guild.id`.
   */
  function GuildRow(copy: Copy, server: TableFile, guild: Option<int>, readColumn: string): (r: Result<Option<string>, Fault>)
    ensures copy == Ryuuryuusei && guild.None? ==> r == Success(None)
    ensures r.Success? && r.value.Some? ==>
      server.Present? && server.keyColumn == readColumn && guild.Some? && r.value == FirstLanguage(server.rows, guild.value)
    ensures server.Present? && server.keyColumn == readColumn && guild.Some? ==>
      r == Success(FirstLanguage(server.rows, guild.value))
  {
    match copy
    case Ryuuryuusei =>
      if guild.None? then Success(None)
      else Lookup(server, readColumn, guild.value)
    case Modules =>
      if server.Missing? then Failure(FileNotFound)
      else if server.keyColumn != readColumn then Failure(KeyError(readColumn))
      else if guild.None? then Failure(GuildIsNone)
      else Success(FirstLanguage(server.rows, guild.value))
  }

  /** A server language if one was read, otherwise the default: faults become the default too. */
  function GuildOrDefault(copy: Copy, server: TableFile, guild: Option<int>, defaultCode: string, readColumn: string): (r: string)
    ensures r == defaultCode || (server.Present? && server.keyColumn == readColumn && guild.Some? &&
                                 FirstLanguage(server.rows, guild.value) == Some(r))
    ensures server.Present? && server.keyColumn == readColumn && guild.Some? && HasKey(server.rows, guild.value) ==>
      Some(r) == FirstLanguage(server.rows, guild.value)
  {
    match GuildRow(copy, server, guild, readColumn)
    case Success(Some(l)) => l
    case _ => defaultCode
  }

  /**
   * `read_user_language` as written. The user-table read is outside `try`, so
   * a missing `member.csv` or one without a `discordId` column raises.
   */
  function ReadUserLanguage(copy: Copy, member: TableFile, server: TableFile, ctx: Context, defaultCode: string): (r: Result<string, Fault>)
    ensures r.Failure? <==> member.Missing? || member.keyColumn != MemberKey
    ensures r.Success? && HasKey(member.rows, ctx.author) ==> Some(r.value) == FirstLanguage(member.rows, ctx.author)
    ensures r.Success? && !HasKey(member.rows, ctx.author) ==>
      r.value == defaultCode ||
      (server.Present? && server.keyColumn == ServerReadColumn && ctx.guild.Some? &&
       FirstLanguage(server.rows, ctx.guild.value) == Some(r.value))
  {
    match Lookup(member, MemberKey, ctx.author)
    case Failure(f) => Failure(f)
    case Success(Some(l)) => Success(l)
    case Success(None) => Success(GuildOrDefault(copy, server, ctx.guild, defaultCode, ServerReadColumn))
  }

  /** The read with the server table selected by the column it is written with. */
  function ReadUserLanguageFixed(copy: Copy, member: TableFile, server: TableFile, ctx: Context, defaultCode: string): (r: Result<string, Fault>)
    ensures r.Failure? <==> member.Missing? || member.keyColumn != MemberKey
    ensures r.Success? && HasKey(member.rows, ctx.author) ==> Some(r.value) == FirstLanguage(member.rows, ctx.author)
    ensures r.Success? && !HasKey(member.rows, ctx.author) ==>
      r.value == defaultCode ||
      (server.Present? && server.keyColumn == ServerKey && ctx.guild.Some? &&
       FirstLanguage(server.rows, ctx.guild.value) == Some(r.value))
  {
    match Lookup(member, MemberKey, ctx.author)
    case Failure(f) => Failure(f)
    case Success(Some(l)) => Success(l)
    case Success(None) => Success(GuildOrDefault(copy, server, ctx.guild, defaultCode, ServerKey))
  }

  /** The user's first row decides, whatever the server table holds. */
  lemma UserRowWins(copy: Copy, rows: seq<Row>, server: TableFile, ctx: Context, defaultCode: string, i: nat)
    requires i < |rows| && rows[i].key == ctx.author
    requires forall j :: 0 <= j < i ==> rows[j].key != ctx.author
    ensures ReadUserLanguage(copy, Present(MemberKey, rows), server, ctx, defaultCode) == Success(rows[i].language)
  {
    FirstLanguageAt(rows, ctx.author, i);
  }

  /** An unreadable user table is the one fault that escapes. */
  lemma MemberTableUnreadable(copy: Copy, member: TableFile, server: TableFile, ctx: Context, defaultCode: string)
    requires member.Missing? || member.keyColumn != MemberKey
    ensures ReadUserLanguage(copy, member, server, ctx, defaultCode) ==
      if member.Missing? then Failure(FileNotFound) else Failure(KeyError(MemberKey))
  {
  }

  /** No user row and no guild: the default code, in both copies. */
  lemma NoGuildGivesDefault(copy: Copy, rows: seq<Row>, server: TableFile, author: int, defaultCode: string)
    requires !HasKey(rows, author)
    ensures ReadUserLanguage(copy, Present(MemberKey, rows), server, Context(author, None), defaultCode) == Success(defaultCode)
  {
  }

  /**
   * No user row, inside a guild: the guild's first row if the server table is
   * readable by `discordId` and has one, otherwise the default code.
   */
  lemma GuildRowOrDefault(copy: Copy, rows: seq<Row>, server: TableFile, author: int, guild: int, defaultCode: string)
    requires !HasKey(rows, author)
    ensures ReadUserLanguage(copy, Present(MemberKey, rows), server, Context(author, Some(guild)), defaultCode) ==
      if server.Present? && server.keyColumn == ServerReadColumn && HasKey(server.rows, guild)
      then Success(FirstLanguage(server.rows, guild).value)
      else Success(defaultCode)
  {
  }

  /** The two copies read the same language from every state and context. */
  lemma CopiesAgree(member: TableFile, server: TableFile, ctx: Context, defaultCode: string)
    ensures ReadUserLanguage(Ryuuryuusei, member, server, ctx, defaultCode) ==
            ReadUserLanguage(Modules, member, server, ctx, defaultCode)
  {
    if ctx.guild.Some? && server.Present? && server.keyColumn == ServerReadColumn {
      assert GuildRow(Ryuuryuusei, server, ctx.guild, ServerReadColumn) == GuildRow(Modules, server, ctx.guild, ServerReadColumn);
    }
  }

  /**
   * As written, a server table in the shape `set_default_language` writes
   * (header `serverId`) is never read: without a user row the answer is the
   * default code.
   */
  lemma ServerTableNeverRead(copy: Copy, rows: seq<Row>, server: TableFile, ctx: Context, defaultCode: string)
    requires !HasKey(rows, ctx.author)
    requires server.Missing? || server.keyColumn == ServerKey
    ensures ReadUserLanguage(copy, Present(MemberKey, rows), server, ctx, defaultCode) == Success(defaultCode)
  {
  }

  /** A guild's saved language is lost to a member with no row of their own. */
  lemma GuildSettingLost(copy: Copy, rows: seq<Row>, server: TableFile, author: int, guild: int, code: string, defaultCode: string)
    requires !HasKey(rows, author)
    ensures ReadUserLanguage(copy, Present(MemberKey, rows), Upsert(ServerKey, server, guild, code), Context(author, Some(guild)), defaultCode)
            == Success(defaultCode)
  {
    ServerTableNeverRead(copy, rows, Upsert(ServerKey, server, guild, code), Context(author, Some(guild)), defaultCode);
  }

  /** Concretely: guild 7 saves `fr_FR`, user 42 in it still reads `en_US`. */
  lemma GuildSettingLostExample()
    ensures ReadUserLanguage(Ryuuryuusei, Present(MemberKey, []), Upsert(ServerKey, Missing, 7, "fr_FR"), Context(42, Some(7)), "en_US")
            == Success("en_US")
  {
    GuildSettingLost(Ryuuryuusei, [], Missing, 42, 7, "fr_FR", "en_US");
  }

  /** With the fix, a guild's saved language is read back by members without their own row. */
  lemma GuildRoundTripFixed(copy: Copy, rows: seq<Row>, server: TableFile, author: int, guild: int, code: string, defaultCode: string)
    requires !HasKey(rows, author)
    ensures ReadUserLanguageFixed(copy, Present(MemberKey, rows), Upsert(ServerKey, server, guild, code), Context(author, Some(guild)), defaultCode)
            == Success(code)
  {
    UpsertReadBack(ServerKey, server, guild, code);
  }

  /** A user's saved language is read back, from any prior state, in any guild. */
  lemma UserRoundTrip(copy: Copy, member: TableFile, server: TableFile, author: int, guild: Option<int>, code: string, defaultCode: string)
    ensures ReadUserLanguage(copy, Upsert(MemberKey, member, author, code), server, Context(author, guild), defaultCode) == Success(code)
  {
    UpsertReadBack(MemberKey, member, author, code);
  }

  /** The user's row overrides a guild row (the scenario of user 42 in guild 7). */
  lemma UserOverridesGuildExample()
    ensures ReadUserLanguage(Modules, Present(MemberKey, [Row(42, "fr_FR")]), Present(ServerReadColumn, [Row(7, "de_DE")]),
                             Context(42, Some(7)), "en_US") == Success("fr_FR")
  {
  }
}
