/** The normalized tables of the host-owned collections, and that they fit what the adapter relies on. */
module Schema {
  import opened Documents
  import opened Tables

  function Col(field: string, kind: ColumnKind): ColumnSpec {
    ColumnSpec(field, kind, false, false, false)
  }

  function Required(field: string): ColumnSpec {
    ColumnSpec(field, TextKind, true, false, false)
  }

  function Unique(field: string): ColumnSpec {
    ColumnSpec(field, TextKind, true, true, false)
  }

  function OptionalFlag(field: string): ColumnSpec {
    ColumnSpec(field, BooleanKind, false, false, true)
  }

  function Plain(name: string, columns: seq<ColumnSpec>): TableSpec {
    TableSpec(name, name, columns, [])
  }

  function Child(
      name: string, columns: seq<ColumnSpec>, column: string, parent: string, onDelete: OnDelete): TableSpec
  {
    TableSpec(name, name, columns, [ForeignKey(column, parent, "id", onDelete)])
  }

  const USERS := Plain("users", [
    Unique("email"), Col("passwordHash", TextKind), Col("status", TextKind), Col("mustChangePassword", BooleanKind),
    Col("failedAttempts", IntegerKind), Col("lockedUntil", IntegerKind), Col("mfaEnabled", BooleanKind),
    Col("roles", JsonKind), Col("createdAt", TextKind)])

  const SESSIONS := Child("sessions", [
    Required("userId"), Col("createdAt", TextKind), Col("expiresAt", IntegerKind), Col("revoked", BooleanKind)],
    "userId", "users", Cascade)

  const INVITES := Plain("invites", [
    Required("email"), Col("roles", JsonKind), Col("tokenHash", TextKind), Col("invitedBy", TextKind),
    Col("expiresAt", IntegerKind), Col("consumedAt", TextKind), Col("createdAt", TextKind)])

  const CONTENT_TYPES := Plain("content_types", [
    Col("name", TextKind), Required("slug"), Col("fields", JsonKind), Col("createdAt", TextKind)])

  const CONTENT_ENTRIES := Child("content_entries", [
    Col("typeId", TextKind), Col("slug", TextKind), Col("locale", TextKind), Col("status", TextKind),
    Col("authorId", TextKind), Col("currentRevision", IntegerKind), Col("publishedAt", TextKind),
    Col("scheduledFor", TextKind), Col("createdAt", TextKind), Col("updatedAt", TextKind),
    OptionalFlag("system"), OptionalFlag("requiresMembership")],
    "typeId", "content_types", Restrict)

  const REVISIONS := Child("revisions", [
    Required("entryId"), Col("version", IntegerKind), Col("fields", JsonKind), Col("blocks", JsonKind),
    Col("editorId", TextKind), Col("createdAt", TextKind)],
    "entryId", "content_entries", Cascade)

  const JOBS := Plain("jobs", [
    Col("type", TextKind), Col("runAt", IntegerKind), Col("payload", JsonKind), Col("status", TextKind),
    Col("attempts", IntegerKind), Col("createdAt", TextKind)])

  const PLUGIN_STATE := Plain("plugin_state", [Col("enabled", BooleanKind)])

  const MEDIA := Plain("media", [
    Col("filename", TextKind), Col("mime", TextKind), Col("ext", TextKind), Col("size", IntegerKind),
    Col("path", TextKind), Col("createdAt", TextKind)])

  const CONSENT_RECORDS := Plain("consent_records", [
    Col("subjectRef", TextKind), Col("scope", TextKind), Col("granted", BooleanKind), Col("at", TextKind)])

  const GDPR_TOMBSTONES := Plain("gdpr_tombstones", [
    Col("subject", TextKind), Col("erasedCount", IntegerKind), Col("erasedAt", TextKind)])

  const MEMBER_ACCOUNTS := Plain("member_accounts", [
    Unique("email"), Col("passwordHash", TextKind), Required("displayName"), Col("avatarUrl", TextKind),
    Col("bio", TextKind), Col("emailVerified", BooleanKind), Col("status", TextKind),
    Col("failedAttempts", IntegerKind), Col("lockedUntil", IntegerKind), Col("createdAt", TextKind),
    Col("updatedAt", TextKind)])

  const MEMBER_SESSIONS := Child("member_sessions", [
    Required("memberId"), Col("expiresAt", IntegerKind), Col("createdAt", TextKind)],
    "memberId", "member_accounts", Cascade)

  const MEMBER_TOKENS := Child("member_tokens", [
    Required("memberId"), Required("email"), Col("type", TextKind), Col("tokenHash", TextKind),
    Col("expiresAt", IntegerKind), Col("usedAt", TextKind), Col("createdAt", TextKind)],
    "memberId", "member_accounts", Cascade)

  const REDIRECTS := Plain("redirects", [
    Unique("from"), Required("to"), Col("code", IntegerKind), Col("createdAt", TextKind)])

  const TABLE_SPECS: seq<TableSpec> := [
    USERS, SESSIONS, INVITES, CONTENT_TYPES, CONTENT_ENTRIES, REVISIONS, JOBS, PLUGIN_STATE, MEDIA,
    CONSENT_RECORDS, GDPR_TOMBSTONES, MEMBER_ACCOUNTS, MEMBER_SESSIONS, MEMBER_TOKENS, REDIRECTS]

  /** Tells the table names apart by their length and one or two letters. */
  function Rank(name: string): nat {
    if |name| == 4 then 6
    else if |name| == 5 then (if name[0] == 'u' then 0 else 8)
    else if |name| == 7 then 2
    else if |name| == 8 then 1
    else if |name| == 9 then (if name[2] == 'v' then 5 else 14)
    else if |name| == 12 then 7
    else if |name| == 13 then (if name[0] == 'c' then 3 else 13)
    else if |name| == 15 then
      (if name[0] == 'g' then 10
       else if name[0] == 'c' then (if name[3] == 't' then 4 else 9)
       else (if name[7] == 'a' then 11 else 12))
    else 15
  }

  lemma Ranks()
    ensures forall k :: 0 <= k < |TABLE_SPECS| ==>
      TABLE_SPECS[k].table == TABLE_SPECS[k].collection && Rank(TABLE_SPECS[k].table) == k
  {
  }

  lemma TablesDistinct()
    ensures forall i, j :: 0 <= i < j < |TABLE_SPECS| ==>
      TABLE_SPECS[i].table != TABLE_SPECS[j].table && TABLE_SPECS[i].collection != TABLE_SPECS[j].collection
  {
    Ranks();
  }

  /** A way to tell the columns of one table apart. */
  lemma DistinctByRank(columns: seq<ColumnSpec>, rank: string -> nat)
    requires forall i :: 0 <= i < |columns| ==> rank(columns[i].field) == i
    requires forall i :: 0 <= i < |columns| ==> columns[i].field != "id" && columns[i].field != "extra"
    ensures ColumnsDistinct(columns)
  {
  }

  lemma UsersColumns()
    ensures ColumnsDistinct(USERS.columns)
  {
    DistinctByRank(USERS.columns, (n: string) =>
      if |n| == 5 then (if n[0] == 'e' then 0 else 7)
      else if |n| == 6 then 2
      else if |n| == 9 then 8
      else if |n| == 10 then 6
      else if |n| == 11 then 5
      else if |n| == 12 then 1
      else if |n| == 14 then 4
      else if |n| == 18 then 3
      else 9);
  }

  lemma SessionsColumns()
    ensures ColumnsDistinct(SESSIONS.columns)
  {
  }

  lemma InvitesColumns()
    ensures ColumnsDistinct(INVITES.columns)
  {
    DistinctByRank(INVITES.columns, (n: string) =>
      if |n| == 5 then (if n[0] == 'e' then 0 else 1)
      else if |n| == 9 then (if n[0] == 't' then 2 else if n[0] == 'i' then 3 else if n[0] == 'e' then 4 else 6)
      else if |n| == 10 then 5
      else 7);
  }

  lemma ContentTypesColumns()
    ensures ColumnsDistinct(CONTENT_TYPES.columns)
  {
  }

  lemma ContentEntriesColumns()
    ensures ColumnsDistinct(CONTENT_ENTRIES.columns)
  {
    DistinctByRank(CONTENT_ENTRIES.columns, (n: string) =>
      if |n| == 4 then 1
      else if |n| == 6 then (if n[2] == 'p' then 0 else if n[2] == 'c' then 2 else if n[2] == 'a' then 3 else 10)
      else if |n| == 8 then 4
      else if |n| == 9 then (if n[0] == 'c' then 8 else 9)
      else if |n| == 11 then 6
      else if |n| == 12 then 7
      else if |n| == 15 then 5
      else if |n| == 18 then 11
      else 12);
  }

  lemma RevisionsColumns()
    ensures ColumnsDistinct(REVISIONS.columns)
  {
    DistinctByRank(REVISIONS.columns, (n: string) =>
      if |n| == 6 then (if n[0] == 'f' then 2 else 3)
      else if |n| == 7 then (if n[0] == 'e' then 0 else 1)
      else if |n| == 8 then 4
      else if |n| == 9 then 5
      else 6);
  }

  lemma JobsColumns()
    ensures ColumnsDistinct(JOBS.columns)
  {
    DistinctByRank(JOBS.columns, (n: string) =>
      if |n| == 4 then 0
      else if |n| == 5 then 1
      else if |n| == 6 then 3
      else if |n| == 7 then 2
      else if |n| == 8 then 4
      else if |n| == 9 then 5
      else 6);
  }

  lemma PluginStateColumns()
    ensures ColumnsDistinct(PLUGIN_STATE.columns)
  {
  }

  lemma MediaColumns()
    ensures ColumnsDistinct(MEDIA.columns)
  {
    DistinctByRank(MEDIA.columns, (n: string) =>
      if |n| == 3 then 2
      else if |n| == 4 then (if n[0] == 'm' then 1 else if n[0] == 's' then 3 else 4)
      else if |n| == 8 then 0
      else if |n| == 9 then 5
      else 6);
  }

  lemma ConsentRecordsColumns()
    ensures ColumnsDistinct(CONSENT_RECORDS.columns)
  {
  }

  lemma GdprTombstonesColumns()
    ensures ColumnsDistinct(GDPR_TOMBSTONES.columns)
  {
  }

  lemma MemberAccountsColumns()
    ensures ColumnsDistinct(MEMBER_ACCOUNTS.columns)
  {
    DistinctByRank(MEMBER_ACCOUNTS.columns, (n: string) =>
      if |n| == 3 then 4
      else if |n| == 5 then 0
      else if |n| == 6 then 6
      else if |n| == 9 then (if n[0] == 'a' then 3 else if n[0] == 'c' then 9 else 10)
      else if |n| == 11 then (if n[0] == 'd' then 2 else 8)
      else if |n| == 12 then 1
      else if |n| == 13 then 5
      else if |n| == 14 then 7
      else 11);
  }

  lemma MemberSessionsColumns()
    ensures ColumnsDistinct(MEMBER_SESSIONS.columns)
  {
  }

  lemma MemberTokensColumns()
    ensures ColumnsDistinct(MEMBER_TOKENS.columns)
  {
    DistinctByRank(MEMBER_TOKENS.columns, (n: string) =>
      if |n| == 4 then 2
      else if |n| == 5 then 1
      else if |n| == 6 then 5
      else if |n| == 8 then 0
      else if |n| == 9 then (if n[0] == 't' then 3 else if n[0] == 'e' then 4 else 6)
      else 7);
  }

  lemma RedirectsColumns()
    ensures ColumnsDistinct(REDIRECTS.columns)
  {
  }

  lemma ChildOk(specs: seq<TableSpec>, k: nat, p: nat)
    requires p < k < |specs| && |specs[k].foreignKeys| == 1 && specs[k].columns != []
    requires var fk, c := specs[k].foreignKeys[0], specs[k].columns[0];
      fk.refColumn == "id" && fk.refTable == specs[p].table && c.field == fk.column && c.kind == TextKind
    ensures ForeignKeysOk(specs, k)
  {
    assert specs[..k][p].table == specs[k].foreignKeys[0].refTable;
  }

  lemma SessionsKey()
    ensures ForeignKeysOk(TABLE_SPECS, 1)
  {
    ChildOk(TABLE_SPECS, 1, 0);
  }

  lemma EntriesKey()
    ensures ForeignKeysOk(TABLE_SPECS, 4)
  {
    ChildOk(TABLE_SPECS, 4, 3);
  }

  lemma RevisionsKey()
    ensures ForeignKeysOk(TABLE_SPECS, 5)
  {
    ChildOk(TABLE_SPECS, 5, 4);
  }

  lemma MemberSessionsKey()
    ensures ForeignKeysOk(TABLE_SPECS, 12)
  {
    ChildOk(TABLE_SPECS, 12, 11);
  }

  lemma MemberTokensKey()
    ensures ForeignKeysOk(TABLE_SPECS, 13)
  {
    ChildOk(TABLE_SPECS, 13, 11);
  }

  predicate HasParent(k: nat) {
    k == 1 || k == 4 || k == 5 || k == 12 || k == 13
  }

  lemma OtherTablesHaveNoKeys()
    ensures forall k :: 0 <= k < |TABLE_SPECS| && !HasParent(k) ==> TABLE_SPECS[k].foreignKeys == []
  {
  }

  lemma ForeignKeysFit()
    ensures forall k :: 0 <= k < |TABLE_SPECS| ==> ForeignKeysOk(TABLE_SPECS, k)
  {
    SessionsKey();
    EntriesKey();
    RevisionsKey();
    MemberSessionsKey();
    MemberTokensKey();
    OtherTablesHaveNoKeys();
  }

  lemma FirstColumnsFit()
    ensures forall k :: 0 <= k < 5 ==> ColumnsDistinct(TABLE_SPECS[k].columns)
  {
    UsersColumns();
    SessionsColumns();
    InvitesColumns();
    ContentTypesColumns();
    ContentEntriesColumns();
  }

  lemma MiddleColumnsFit()
    ensures forall k :: 5 <= k < 10 ==> ColumnsDistinct(TABLE_SPECS[k].columns)
  {
    RevisionsColumns();
    JobsColumns();
    PluginStateColumns();
    MediaColumns();
    ConsentRecordsColumns();
  }

  lemma LastColumnsFit()
    ensures forall k :: 10 <= k < |TABLE_SPECS| ==> ColumnsDistinct(TABLE_SPECS[k].columns)
  {
    GdprTombstonesColumns();
    MemberAccountsColumns();
    MemberSessionsColumns();
    MemberTokensColumns();
    RedirectsColumns();
  }

  /**
    The shipped schema meets every condition the adapter's guarantees are proved
    under: parents first, distinct names, text keys, and no table whose restricting
    key has company.
  */
  lemma ShippedSchemaIsWellFormed()
    ensures WellFormedSchema(TABLE_SPECS)
  {
    TablesDistinct();
    ForeignKeysFit();
    FirstColumnsFit();
    MiddleColumnsFit();
    LastColumnsFit();
  }

  /** The foreign keys of the shipped schema, by table. */
  ghost predicate KeysAsShipped(specs: seq<TableSpec>) {
    && |specs| == 15 && specs[3].table == "content_types" && specs[4].table == "content_entries"
    && ForeignKey("typeId", "content_types", "id", Restrict) in specs[4].foreignKeys
    && (forall k, fk :: 0 <= k < |specs| && fk in specs[k].foreignKeys ==>
          || (k == 1 && fk == ForeignKey("userId", "users", "id", Cascade))
          || (k == 4 && fk == ForeignKey("typeId", "content_types", "id", Restrict))
          || (k == 5 && fk == ForeignKey("entryId", "content_entries", "id", Cascade))
          || ((k == 12 || k == 13) && fk == ForeignKey("memberId", "member_accounts", "id", Cascade)))
  }

  lemma ShippedKeys()
    ensures KeysAsShipped(TABLE_SPECS)
  {
    OtherTablesHaveNoKeys();
  }
}
