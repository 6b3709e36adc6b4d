/** The owner's database commands (nexichat/modules/db.py): the numbered
    listing, `/deldb` in its three argument forms, `/checkdb`'s decision, the
    transfer URL check and the backup/restore copy between two servers. */
module DbAdmin {
  import opened Base

  // ---------------------------------------------------------------------------
  // Servers and what they list

  type Doc = string
  /** A database: collection name to documents. */
  type Collections = map<string, seq<Doc>>
  /** A server: database name to collections. */
  type Server = map<string, Collections>

  /** The names a server reports, in its order: each database with its collections. */
  datatype DbListing = DbListing(name: string, collections: seq<string>)
  type Catalog = seq<DbListing>

  predicate IsSystemDb(name: string)
  {
    name == "admin" || name == "local"
  }

  /** A database entry (no collection) or a collection entry. */
  datatype Slot = Slot(db: string, col: Option<string>)

  datatype Entry = Entry(num: nat, db: string, col: Option<string>)

  function Block(d: DbListing): (b: seq<Slot>)
    ensures |b| == 1 + |d.collections|
    ensures b[0] == Slot(d.name, None)
    ensures forall j :: 0 <= j < |d.collections| ==> b[j + 1] == Slot(d.name, Some(d.collections[j]))
  {
    [Slot(d.name, None)] + seq(|d.collections|, j requires 0 <= j < |d.collections| => Slot(d.name, Some(d.collections[j])))
  }

  /** The user databases, each followed by its collections. */
  function Flat(catalog: Catalog): seq<Slot>
  {
    if catalog == [] then []
    else
      var last := catalog[|catalog| - 1];
      Flat(catalog[..|catalog| - 1]) + (if IsSystemDb(last.name) then [] else Block(last))
  }

  function Listing(catalog: Catalog): (entries: seq<Entry>)
    ensures |entries| == |Flat(catalog)|
    ensures forall i :: 0 <= i < |entries| ==> entries[i] == Entry(i + 1, Flat(catalog)[i].db, Flat(catalog)[i].col)
  {
    var f := Flat(catalog);
    seq(|f|, i requires 0 <= i < |f| => Entry(i + 1, f[i].db, f[i].col))
  }

  /** list_databases_and_collections */
  method ListDatabasesAndCollections(catalog: Catalog) returns (entries: seq<Entry>)
    ensures entries == Listing(catalog)
    ensures forall i :: 0 <= i < |entries| ==> entries[i].num == i + 1 && !IsSystemDb(entries[i].db)
  {
    entries := [];
    var counter := 1;
    for k := 0 to |catalog|
      invariant counter == |entries| + 1
      invariant entries == Listing(catalog[..k])
    {
      var d := catalog[k];
      assert catalog[..k + 1][..k] == catalog[..k];
      ghost var before := Flat(catalog[..k]);
      if !IsSystemDb(d.name) {
        assert Flat(catalog[..k + 1]) == before + Block(d);
        entries := entries + [Entry(counter, d.name, None)];
        counter := counter + 1;
        for j := 0 to |d.collections|
          invariant counter == |entries| + 1
          invariant |entries| == |before| + 1 + j
          invariant entries == Listing(catalog[..k + 1])[..|entries|]
        {
          entries := entries + [Entry(counter, d.name, Some(d.collections[j]))];
          counter := counter + 1;
        }
      } else {
        assert Flat(catalog[..k + 1]) == before + [];
      }
    }
    assert catalog[..|catalog|] == catalog;
    FlatShape(catalog);
  }

  /** No system database, a database entry first, and each collection entry
      right after an entry of its own database. */
  ghost predicate Shaped(f: seq<Slot>)
  {
    && (forall i :: 0 <= i < |f| ==> !IsSystemDb(f[i].db))
    && (|f| > 0 ==> f[0].col.None?)
    && (forall i :: 0 < i < |f| && f[i].col.Some? ==> f[i - 1].db == f[i].db)
  }

  lemma ShapedAppend(f0: seq<Slot>, d: DbListing)
    requires Shaped(f0) && !IsSystemDb(d.name)
    ensures Shaped(f0 + Block(d))
  {
    var b := Block(d);
    var f := f0 + b;
    forall i | 0 < i < |f| && f[i].col.Some? ensures f[i - 1].db == f[i].db {
      if i > |f0| {
        assert f[i] == b[i - |f0|] && f[i - 1] == b[i - 1 - |f0|];
      }
    }
  }

  /** The listing holds no system database, starts with a database entry, and
      a collection entry always follows an entry of its own database. */
  lemma {:induction false} FlatShape(catalog: Catalog)
    ensures Shaped(Flat(catalog))
  {
    if catalog != [] {
      var init, last := catalog[..|catalog| - 1], catalog[|catalog| - 1];
      FlatShape(init);
      if !IsSystemDb(last.name) {
        ShapedAppend(Flat(init), last);
      } else {
        assert Flat(catalog) == Flat(init) + [];
      }
    }
  }

  /** Every user database and each of its collections gets an entry. */
  lemma {:induction false} FlatComplete(catalog: Catalog)
    ensures forall d :: d in catalog && !IsSystemDb(d.name) ==> Slot(d.name, None) in Flat(catalog)
    ensures forall d, c :: d in catalog && !IsSystemDb(d.name) && c in d.collections ==>
              Slot(d.name, Some(c)) in Flat(catalog)
  {
    if catalog != [] {
      var init, last := catalog[..|catalog| - 1], catalog[|catalog| - 1];
      FlatComplete(init);
      assert catalog == init + [last];
      var f := Flat(catalog);
      if !IsSystemDb(last.name) {
        var b := Block(last);
        assert f == Flat(init) + b;
        assert b[0] in f;
        forall c | c in last.collections ensures Slot(last.name, Some(c)) in f {
          var j :| 0 <= j < |last.collections| && last.collections[j] == c;
          assert b[j + 1] in f;
        }
      } else {
        assert f == Flat(init) + [];
      }
    }
  }

  // ---------------------------------------------------------------------------
  // Dropping

  function DropDatabase(server: Server, db: string): (r: Server)
    ensures db !in r
    ensures forall d :: d != db ==> (d in r <==> d in server) && (d in r ==> r[d] == server[d])
  {
    server - {db}
  }

  function DropCollection(server: Server, db: string, col: string): (r: Server)
    ensures r.Keys == server.Keys
    ensures db in r ==> col !in r[db] && forall c :: c != col ==> (c in r[db] <==> c in server[db])
    ensures forall d :: d in r && d != db ==> r[d] == server[d]
  {
    if db in server then server[db := server[db] - {col}] else server
  }

  /** An entry whose collection name is present and non-empty (Python's `if col_name:`). */
  predicate IsCollectionEntry(e: Entry)
  {
    e.col.Some? && e.col.value != []
  }

  function DropEntry(server: Server, e: Entry): Server
  {
    if IsCollectionEntry(e) then DropCollection(server, e.db, e.col.value) else DropDatabase(server, e.db)
  }

  /** A database the operation left exactly as it was. */
  predicate Untouched(before: Server, after: Server, db: string)
  {
    (db in after <==> db in before) && (db in before ==> after[db] == before[db])
  }

  /** Dropping a database, or a collection of it, leaves every other database as it was. */
  lemma DropUntouched(server: Server, name: string, col: string, db: string)
    requires name != db
    ensures Untouched(server, DropDatabase(server, name), db)
    ensures Untouched(server, DropCollection(server, name, col), db)
  {
  }

  // ---------------------------------------------------------------------------
  // The comma form of /deldb

  /** The entry number a token names: its stripped text is all digits and the
      number lies in 1..count. */
  function TokenIndex(token: string, count: nat): (n: Option<nat>)
    ensures n.Some? ==> 1 <= n.value <= count
    ensures !IsDigits(Strip(token)) ==> n.None?
    ensures IsDigits(Strip(token)) ==>
              n == if 1 <= ParseNat(Strip(token)) <= count then Some(ParseNat(Strip(token))) else None
  {
    var t := Strip(token);
    if IsDigits(t) && 1 <= ParseNat(t) <= count then Some(ParseNat(t)) else None
  }

  /** The token `str(k)` names entry k of a listing of at least k entries. */
  lemma TokenIndexOfNumeral(k: nat, count: nat)
    requires 1 <= k <= count
    ensures TokenIndex(NatToString(k), count) == Some(k)
  {
    var t := NatToString(k);
    assert IsDigit(t[0]) && IsDigit(t[|t| - 1]);
    StripPlain(t);
    ParseNatToString(k);
  }

  /** The server after the entry one token names is dropped, if it names one. */
  function DropToken(server: Server, entries: seq<Entry>, token: string): Server
  {
    match TokenIndex(token, |entries|)
    case Some(n) => DropEntry(server, entries[n - 1])
    case None => server
  }

  /** The server after dropping, in order, the snapshot entries the tokens name. */
  function CommaDrops(server: Server, entries: seq<Entry>, tokens: seq<string>): Server
    decreases |tokens|
  {
    if tokens == [] then server
    else CommaDrops(DropToken(server, entries, tokens[0]), entries, tokens[1..])
  }

  /** The stripped tokens that name no entry. */
  function InvalidTokens(tokens: seq<string>, count: nat): seq<string>
  {
    if tokens == [] then [] else Reported(tokens[0], count) + InvalidTokens(tokens[1..], count)
  }

  /** What one token adds to the error report: its stripped text when it names no entry. */
  function Reported(token: string, count: nat): seq<string>
  {
    if TokenIndex(token, count).None? then [Strip(token)] else []
  }

  lemma {:induction false} InvalidTokensConcat(a: seq<string>, b: seq<string>, count: nat)
    ensures InvalidTokens(a + b, count) == InvalidTokens(a, count) + InvalidTokens(b, count)
  {
    if a != [] {
      InvalidTokensConcat(a[1..], b, count);
      assert (a + b)[0] == a[0] && (a + b)[1..] == a[1..] + b;
      var head := Reported(a[0], count);
      assert InvalidTokens(a + b, count) == head + InvalidTokens(a[1..] + b, count);
      assert InvalidTokens(a, count) == head + InvalidTokens(a[1..], count);
    } else {
      assert a + b == b;
    }
  }

  /** Every token, stripped. */
  function StripAll(tokens: seq<string>): seq<string>
  {
    if tokens == [] then [] else [Strip(tokens[0])] + StripAll(tokens[1..])
  }

  /** A text is reported exactly when it is the stripped form of a token that names no entry. */
  lemma {:induction false} InvalidTokensIff(tokens: seq<string>, count: nat, t: string)
    ensures t in InvalidTokens(tokens, count) <==>
            exists k :: 0 <= k < |tokens| && TokenIndex(tokens[k], count).None? && Strip(tokens[k]) == t
  {
    if tokens != [] {
      InvalidTokensIff(tokens[1..], count, t);
      if exists k :: 0 <= k < |tokens| && TokenIndex(tokens[k], count).None? && Strip(tokens[k]) == t {
        var k :| 0 <= k < |tokens| && TokenIndex(tokens[k], count).None? && Strip(tokens[k]) == t;
        if k > 0 {
          assert tokens[1..][k - 1] == tokens[k];
        }
      }
      if t in InvalidTokens(tokens[1..], count) {
        var k :| 0 <= k < |tokens[1..]| && TokenIndex(tokens[1..][k], count).None? && Strip(tokens[1..][k]) == t;
        assert tokens[k + 1] == tokens[1..][k];
      }
    }
  }

  /** Dropping snapshot entries of user databases never changes `db` when it is a system database. */
  lemma {:induction false} CommaDropsKeepSystem(server: Server, entries: seq<Entry>, tokens: seq<string>, db: string)
    requires IsSystemDb(db)
    requires forall i :: 0 <= i < |entries| ==> !IsSystemDb(entries[i].db)
    ensures Untouched(server, CommaDrops(server, entries, tokens), db)
    decreases |tokens|
  {
    if tokens != [] {
      CommaDropsKeepSystem(DropToken(server, entries, tokens[0]), entries, tokens[1..], db);
    }
  }

  /** The comma loop, reporting only the tokens that name no entry. */
  method DeleteByNumbers(server: Server, entries: seq<Entry>, tokens: seq<string>) returns (after: Server, failed: seq<string>)
    ensures after == CommaDrops(server, entries, tokens)
    ensures failed == InvalidTokens(tokens, |entries|)
  {
    after := server;
    failed := [];
    var i := 0;
    while i < |tokens|
      invariant 0 <= i <= |tokens|
      invariant CommaDrops(after, entries, tokens[i..]) == CommaDrops(server, entries, tokens)
      invariant failed == InvalidTokens(tokens[..i], |entries|)
    {
      var number := TokenIndex(tokens[i], |entries|);
      CommaStep(after, entries, tokens, i);
      after := DropToken(after, entries, tokens[i]);
      if number.None? {
        failed := failed + [Strip(tokens[i])];
      }
      i := i + 1;
    }
    assert tokens[..|tokens|] == tokens;
  }

  /** One token of the comma loop: what it drops and what it reports. */
  lemma CommaStep(server: Server, entries: seq<Entry>, tokens: seq<string>, i: nat)
    requires i < |tokens|
    ensures CommaDrops(server, entries, tokens[i..]) == CommaDrops(DropToken(server, entries, tokens[i]), entries, tokens[i + 1..])
    ensures InvalidTokens(tokens[..i + 1], |entries|) ==
            InvalidTokens(tokens[..i], |entries|) + Reported(tokens[i], |entries|)
  {
    assert tokens[i..][0] == tokens[i] && tokens[i..][1..] == tokens[i + 1..];
    InvalidTokensSnoc(tokens[..i], tokens[i], |entries|);
    assert tokens[..i + 1] == tokens[..i] + [tokens[i]];
  }

  lemma InvalidTokensSnoc(tokens: seq<string>, t: string, count: nat)
    ensures InvalidTokens(tokens + [t], count) ==
            InvalidTokens(tokens, count) + Reported(t, count)
  {
    InvalidTokensConcat(tokens, [t], count);
    assert [t][1..] == [];
  }

  /** The comma loop as written: a deletion that succeeds is followed by a use of
      an unbound name, so every valid token is reported too. */
  method DeleteByNumbersAsWritten(server: Server, entries: seq<Entry>, tokens: seq<string>) returns (after: Server, failed: seq<string>)
    ensures after == CommaDrops(server, entries, tokens)
    ensures failed == StripAll(tokens)
  {
    after := server;
    failed := [];
    var i := 0;
    while i < |tokens|
      invariant 0 <= i <= |tokens|
      invariant CommaDrops(after, entries, tokens[i..]) == CommaDrops(server, entries, tokens)
      invariant failed == StripAll(tokens[..i])
    {
      CommaStep(after, entries, tokens, i);
      StripAllStep(tokens, i);
      after := DropToken(after, entries, tokens[i]);
      failed := failed + [Strip(tokens[i])];
      i := i + 1;
    }
    assert tokens[..|tokens|] == tokens;
  }

  /** One stripped text per token, at the token's own position. */
  lemma {:induction false} StripAllAt(tokens: seq<string>)
    ensures |StripAll(tokens)| == |tokens|
    ensures forall k :: 0 <= k < |tokens| ==> StripAll(tokens)[k] == Strip(tokens[k])
  {
    if tokens != [] {
      StripAllAt(tokens[1..]);
      assert forall k :: 1 <= k < |tokens| ==> tokens[1..][k - 1] == tokens[k];
    }
  }

  /** The report as written is a superset of the intended one: every token that
      names no entry is still reported, next to the deleted ones. */
  lemma AsWrittenReportCoversInvalid(tokens: seq<string>, count: nat)
    ensures forall t :: t in InvalidTokens(tokens, count) ==> t in StripAll(tokens)
  {
    StripAllAt(tokens);
    forall t | t in InvalidTokens(tokens, count) ensures t in StripAll(tokens) {
      InvalidTokensIff(tokens, count, t);
      var k :| 0 <= k < |tokens| && TokenIndex(tokens[k], count).None? && Strip(tokens[k]) == t;
      assert StripAll(tokens)[k] == t;
    }
  }

  lemma {:induction false} StripAllSnoc(tokens: seq<string>, t: string)
    ensures StripAll(tokens + [t]) == StripAll(tokens) + [Strip(t)]
  {
    if tokens != [] {
      StripAllSnoc(tokens[1..], t);
      assert (tokens + [t])[1..] == tokens[1..] + [t];
    } else {
      assert [t][1..] == [];
    }
  }

  lemma StripAllStep(tokens: seq<string>, i: nat)
    requires i < |tokens|
    ensures StripAll(tokens[..i + 1]) == StripAll(tokens[..i]) + [Strip(tokens[i])]
  {
    StripAllSnoc(tokens[..i], tokens[i]);
    assert tokens[..i + 1] == tokens[..i] + [tokens[i]];
  }

  lemma StripPlain(s: string)
    requires s != [] && !IsSpace(s[0]) && !IsSpace(s[|s| - 1])
    ensures Strip(s) == s
  {
  }

  /** "/deldb 1,x" on a listing with an entry: entry 1 is deleted, yet the
      as-written loop reports "1" among the failures, where the corrected one
      reports only "x". */
  lemma DeletedTokenReportedAsFailed(entries: seq<Entry>)
    requires |entries| >= 1
    ensures TokenIndex("1", |entries|) == Some(1)
    ensures "1" in StripAll(["1", "x"])
    ensures InvalidTokens(["1", "x"], |entries|) == ["x"]
  {
    StripPlain("1");
    StripPlain("x");
    assert ParseNat("1") == 1 by {
      assert "1"[..0] == [];
    }
    assert !IsDigits("x");
    assert TokenIndex("x", |entries|).None?;
    assert ["1", "x"][1..] == ["x"];
    assert ["x"][1..] == [];
    assert InvalidTokens(["x"], |entries|) == ["x"] + InvalidTokens([], |entries|);
  }

  // ---------------------------------------------------------------------------
  // /deldb

  datatype DeleteReply =
    | ShowList(entries: seq<Entry>)
    | NoUserDatabases
    | CollectionDeleted(db: string, col: string)
    | DatabaseDeleted(db: string)
    | InvalidNumber
    | DoesNotExist(db: string)
    | CommaResult(failed: seq<string>)

  /** The names of the databases the listing shows (`[db[1] for db in ... if not db[2]]`). */
  function ListedDbNames(entries: seq<Entry>): set<string>
  {
    set e | e in entries && !IsCollectionEntry(e) :: e.db
  }

  function DeletedReply(e: Entry): DeleteReply
  {
    if IsCollectionEntry(e) then CollectionDeleted(e.db, e.col.value) else DatabaseDeleted(e.db)
  }

  /** delete_db_command; `args` are the words after the command, `catalog` what
      the server lists, and `after` the server once the command is done. */
  method DeleteDb(args: seq<string>, catalog: Catalog, server: Server) returns (reply: DeleteReply, after: Server)
    ensures var entries := Listing(catalog);
            && (args == [] ==> after == server && reply == (if entries != [] then ShowList(entries) else NoUserDatabases))
            && (args != [] && ',' in args[0] ==>
                  var tokens := Split(args[0], ',');
                  after == CommaDrops(server, entries, tokens) && reply == CommaResult(StripAll(tokens)))
            && (args != [] && ',' !in args[0] && IsDigits(args[0]) ==>
                  var n := ParseNat(args[0]);
                  if 1 <= n <= |entries| then
                    entries[n - 1].num == n && after == DropEntry(server, entries[n - 1]) && reply == DeletedReply(entries[n - 1])
                  else after == server && reply == InvalidNumber)
            && (args != [] && ',' !in args[0] && !IsDigits(args[0]) ==>
                  var name := args[0];
                  if name !in ListedDbNames(entries) then after == server && reply == DoesNotExist(name)
                  else if |args| == 2 then after == DropCollection(server, name, args[1]) && reply == CollectionDeleted(name, args[1])
                  else after == DropDatabase(server, name) && reply == DatabaseDeleted(name))
    ensures Untouched(server, after, "admin") && Untouched(server, after, "local")
  {
    var entries := ListDatabasesAndCollections(catalog);
    if args == [] {
      after := server;
      reply := if |entries| > 0 then ShowList(entries) else NoUserDatabases;
    } else if ',' in args[0] {
      var failed;
      after, failed := DeleteByNumbersAsWritten(server, entries, Split(args[0], ','));
      reply := CommaResult(failed);
      CommaDropsKeepSystem(server, entries, Split(args[0], ','), "admin");
      CommaDropsKeepSystem(server, entries, Split(args[0], ','), "local");
    } else if IsDigits(args[0]) {
      reply, after := DeleteByNumber(ParseNat(args[0]), entries, server);
    } else {
      reply, after := DeleteByName(args, entries, server);
    }
  }

  /** The single-number form of /deldb: drop the entry with that number, if any. */
  method DeleteByNumber(number: nat, entries: seq<Entry>, server: Server) returns (reply: DeleteReply, after: Server)
    requires forall i :: 0 <= i < |entries| ==> entries[i].num == i + 1 && !IsSystemDb(entries[i].db)
    ensures if 1 <= number <= |entries| then
              entries[number - 1].num == number && after == DropEntry(server, entries[number - 1]) &&
              reply == DeletedReply(entries[number - 1])
            else after == server && reply == InvalidNumber
    ensures Untouched(server, after, "admin") && Untouched(server, after, "local")
  {
    if 0 < number <= |entries| {
      var e := entries[number - 1];
      after := DropEntry(server, e);
      reply := DeletedReply(e);
      DropUntouched(server, e.db, if e.col.Some? then e.col.value else "", "admin");
      DropUntouched(server, e.db, if e.col.Some? then e.col.value else "", "local");
    } else {
      after := server;
      reply := InvalidNumber;
    }
  }

  /** The by-name form of /deldb: a listed database, or one of its collections when a second word names it. */
  method DeleteByName(args: seq<string>, entries: seq<Entry>, server: Server) returns (reply: DeleteReply, after: Server)
    requires args != []
    requires forall i :: 0 <= i < |entries| ==> !IsSystemDb(entries[i].db)
    ensures var name := args[0];
            if name !in ListedDbNames(entries) then after == server && reply == DoesNotExist(name)
            else if |args| == 2 then after == DropCollection(server, name, args[1]) && reply == CollectionDeleted(name, args[1])
            else after == DropDatabase(server, name) && reply == DatabaseDeleted(name)
    ensures Untouched(server, after, "admin") && Untouched(server, after, "local")
  {
    var name := args[0];
    if name !in ListedDbNames(entries) {
      after := server;
      reply := DoesNotExist(name);
    } else {
      var e :| e in entries && !IsCollectionEntry(e) && e.db == name;
      assert !IsSystemDb(name);
      DropUntouched(server, name, if |args| == 2 then args[1] else "", "admin");
      DropUntouched(server, name, if |args| == 2 then args[1] else "", "local");
      if |args| == 2 {
        after := DropCollection(server, name, args[1]);
        reply := CollectionDeleted(name, args[1]);
      } else {
        after := DropDatabase(server, name);
        reply := DatabaseDeleted(name);
      }
    }
  }

  // ---------------------------------------------------------------------------
  // /checkdb

  datatype CheckReply = NoUserDbs | ListDbs

  /** check_db_command's test as written: more than two database names. */
  function CheckDbAsWritten(names: seq<string>): CheckReply
  {
    if |names| > 2 then ListDbs else NoUserDbs
  }

  /** A server listing exactly two user databases, with the system ones not
      visible, is reported as having none. */
  lemma CheckDbAsWrittenMisses()
    ensures CheckDbAsWritten(["chatbot", "replies"]) == NoUserDbs
    ensures !IsSystemDb("chatbot") && !IsSystemDb("replies")
  {
  }

  /** The intended test: some listed database is not a system one. */
  function CheckDb(names: seq<string>): (r: CheckReply)
    ensures r == NoUserDbs <==> forall i :: 0 <= i < |names| ==> IsSystemDb(names[i])
  {
    if exists i :: 0 <= i < |names| && !IsSystemDb(names[i]) then ListDbs else NoUserDbs
  }

  /** The two tests agree on a server that lists both system databases once each. */
  lemma CheckDbAgreesWhenSystemDbsListed(names: seq<string>)
    requires NoDup(names) && "admin" in names && "local" in names
    ensures CheckDbAsWritten(names) == CheckDb(names)
  {
    if |names| > 2 {
      assert names[0] != names[1] && names[0] != names[2] && names[1] != names[2];
      assert !IsSystemDb(names[0]) || !IsSystemDb(names[1]) || !IsSystemDb(names[2]);
    }
    if exists i :: 0 <= i < |names| && !IsSystemDb(names[i]) {
      var i :| 0 <= i < |names| && !IsSystemDb(names[i]);
      var a :| 0 <= a < |names| && names[a] == "admin";
      var l :| 0 <= l < |names| && names[l] == "local";
      assert i != a && i != l && a != l;
      assert |names| > 2;
    }
  }

  // ---------------------------------------------------------------------------
  // Inline reply or paste link

  /** Telegram's message length limit. */
  const MaxMessage: nat := 4096

  datatype Delivery = Inline(text: string) | PasteLink(link: Option<string>)

  /** A result longer than the message limit goes to the paste service, whose
      answer `paste` gives (None when it reports failure). */
  function Deliver(text: string, paste: string -> Option<string>): (d: Delivery)
    ensures d.Inline? <==> |text| <= MaxMessage
    ensures d.Inline? ==> d.text == text && |d.text| <= MaxMessage
    ensures d.PasteLink? ==> d.link == paste(text)
  {
    if |text| > MaxMessage then PasteLink(paste(text)) else Inline(text)
  }

  // ---------------------------------------------------------------------------
  // Transfer

  /** `mongodb(?:\+srv)?://[^\s]+` matched at the start of the text. */
  function MatchesMongoUrl(url: string): (ok: bool)
    ensures ok ==> StartsWith(url, "mongodb") && |url| > 10
    ensures StartsWith(url, "mongodb://") ==> (ok <==> |url| > 10 && !IsSpace(url[10]))
  {
    assert StartsWith(url, "mongodb://") ==> url[7] == "mongodb://"[7] && url[7..][..3] == "://";
    StartsWith(url, "mongodb") &&
    var rest := url[7..];
    var afterScheme := if StartsWith(rest, "+srv") then rest[4..] else rest;
    StartsWith(afterScheme, "://") && |afterScheme| > 3 && !IsSpace(afterScheme[3])
  }

  /** Accepted exactly when the text starts with one of the two schemes and a
      non-whitespace character follows. */
  lemma MongoUrlIff(url: string)
    ensures MatchesMongoUrl(url) <==>
            (StartsWith(url, "mongodb://") && |url| > 10 && !IsSpace(url[10])) ||
            (StartsWith(url, "mongodb+srv://") && |url| > 14 && !IsSpace(url[14]))
  {
    assert "mongodb://" == "mongodb" + "://";
    assert "mongodb+srv://" == "mongodb" + ("+srv" + "://");
    StartsWithConcat(url, "mongodb", "://");
    StartsWithConcat(url, "mongodb", "+srv" + "://");
    if |url| >= 7 {
      var rest := url[7..];
      StartsWithConcat(rest, "+srv", "://");
      if StartsWith(rest, "+srv") {
        assert rest[0] == '+';
        assert !StartsWith(rest, "://");
        assert rest[4..] == url[11..];
        if |url| > 14 {
          assert rest[4..][3] == url[14];
        }
      } else if |url| > 10 {
        assert rest[3] == url[10];
      }
    }
  }

  lemma StartsWithConcat(s: string, a: string, b: string)
    ensures StartsWith(s, a + b) <==> StartsWith(s, a) && StartsWith(s[|a|..], b)
  {
    if StartsWith(s, a + b) {
      assert s[..|a|] == (a + b)[..|a|];
      assert s[|a|..][..|b|] == s[|a|..|a| + |b|] == (a + b)[|a|..];
    }
    if StartsWith(s, a) && StartsWith(s[|a|..], b) {
      assert s[..|a| + |b|] == s[..|a|] + s[|a|..][..|b|];
    }
  }

  /** Only a prefix is checked: anything may follow an accepted URL. */
  lemma MongoUrlPrefix(url: string, tail: string)
    requires MatchesMongoUrl(url)
    ensures MatchesMongoUrl(url + tail)
  {
    MongoUrlIff(url);
    MongoUrlIff(url + tail);
    if StartsWith(url, "mongodb://") && |url| > 10 {
      assert (url + tail)[..10] == url[..10];
    } else {
      assert (url + tail)[..14] == url[..14];
    }
  }

  function Get(s: Server, d: string): Collections
  {
    if d in s then s[d] else map[]
  }

  function Docs(cs: Collections, c: string): seq<Doc>
  {
    if c in cs then cs[c] else []
  }

  /** Some collection of the database holds a document. */
  predicate HasDocs(cs: Collections)
  {
    exists c :: c in cs && cs[c] != []
  }

  /** insert_many of non-empty `docs` into collection `col` of database `db`,
      creating either when absent. */
  function InsertMany(s: Server, db: string, col: string, docs: seq<Doc>): (r: Server)
    requires docs != []
    ensures r.Keys == s.Keys + {db}
    ensures r[db].Keys == Get(s, db).Keys + {col}
    ensures r[db][col] == Docs(Get(s, db), col) + docs
  {
    s[db := Get(s, db)[col := Docs(Get(s, db), col) + docs]]
  }

  /** A database after the backup's documents for it are appended. */
  function MergeCols(tc: Collections, bc: Collections): Collections
  {
    map c | c in tc.Keys + bc.Keys && (c in tc || bc[c] != []) :: Docs(tc, c) + Docs(bc, c)
  }

  /** The target once every non-empty backed-up collection has been appended to it. */
  function Restored(target: Server, backup: Server): Server
  {
    map d | d in target.Keys + backup.Keys && (d in target || HasDocs(backup[d])) :: MergeCols(Get(target, d), Get(backup, d))
  }

  lemma GetRestored(target: Server, acc: Server, d: string)
    ensures Get(Restored(target, acc), d) == MergeCols(Get(target, d), Get(acc, d))
  {
    var r := Restored(target, acc);
    if d !in r {
      var m := MergeCols(Get(target, d), Get(acc, d));
      assert m.Keys == {} by {
        forall c | c in m ensures false {
        }
      }
    }
  }

  lemma ColsExt(a: Collections, b: Collections)
    requires forall c :: c in a <==> c in b
    requires forall c :: c in a ==> a[c] == b[c]
    ensures a == b
  {
  }

  lemma ServerExt(a: Server, b: Server)
    requires a.Keys == b.Keys
    requires forall d :: Get(a, d) == Get(b, d)
    ensures a == b
  {
    forall d | d in a ensures a[d] == b[d] {
      assert Get(a, d) == Get(b, d);
    }
  }

  /** Adding a collection to the processed part of a database's backup. */
  lemma MergeColsAdd(tc: Collections, bc: Collections, c: string, docs: seq<Doc>)
    requires c !in bc
    ensures docs == [] ==> MergeCols(tc, bc[c := docs]) == MergeCols(tc, bc)
    ensures docs != [] ==> MergeCols(tc, bc[c := docs]) == MergeCols(tc, bc)[c := Docs(MergeCols(tc, bc), c) + docs]
  {
    var m, m' := MergeCols(tc, bc), MergeCols(tc, bc[c := docs]);
    assert Docs(m, c) == Docs(tc, c);
    var n := if docs == [] then m else m[c := Docs(m, c) + docs];
    forall x ensures (x in m' <==> x in n) && (x in m' ==> m'[x] == n[x]) {
    }
    ColsExt(m', n);
  }

  /** The databases a partial restore has reached, after one more collection. */
  lemma HasDocsAdd(cs: Collections, c: string, docs: seq<Doc>)
    requires c !in cs
    ensures HasDocs(cs[c := docs]) <==> HasDocs(cs) || docs != []
  {
    if HasDocs(cs) {
      var x :| x in cs && cs[x] != [];
      assert x in cs[c := docs] && cs[c := docs][x] != [];
    }
    if docs != [] {
      assert c in cs[c := docs] && cs[c := docs][c] != [];
    }
  }

  /** Databases other than `d` are the same before and after one more collection of `d`. */
  lemma RestoreOthers(target: Server, acc: Server, d: string, c: string, docs: seq<Doc>)
    requires d in acc && c !in acc[d]
    ensures forall dd :: dd != d ==> Get(Restored(target, acc[d := acc[d][c := docs]]), dd) == Get(Restored(target, acc), dd)
  {
    var acc' := acc[d := acc[d][c := docs]];
    forall dd | dd != d ensures Get(Restored(target, acc'), dd) == Get(Restored(target, acc), dd) {
      GetRestored(target, acc', dd);
      GetRestored(target, acc, dd);
      assert Get(acc', dd) == Get(acc, dd);
    }
  }

  lemma RestoreKeysStep(target: Server, acc: Server, d: string, c: string, docs: seq<Doc>)
    requires d in acc && c !in acc[d]
    ensures Restored(target, acc[d := acc[d][c := docs]]).Keys == Restored(target, acc).Keys + (if docs != [] then {d} else {})
  {
    var acc' := acc[d := acc[d][c := docs]];
    var r, r' := Restored(target, acc), Restored(target, acc');
    forall dd ensures dd in r' <==> dd in r || (docs != [] && dd == d) {
      InRestored(target, acc', dd);
      InRestored(target, acc, dd);
      if dd == d {
        HasDocsAdd(acc[d], c, docs);
      }
    }
  }

  lemma InRestored(target: Server, acc: Server, d: string)
    ensures d in Restored(target, acc) <==> d in target || (d in acc && HasDocs(acc[d]))
  {
  }

  lemma RestoreStepEmpty(target: Server, acc: Server, d: string, c: string)
    requires d in acc && c !in acc[d]
    ensures Restored(target, acc[d := acc[d][c := []]]) == Restored(target, acc)
  {
    var acc' := acc[d := acc[d][c := []]];
    var r, r' := Restored(target, acc), Restored(target, acc');
    GetRestored(target, acc', d);
    GetRestored(target, acc, d);
    MergeColsAdd(Get(target, d), acc[d], c, []);
    RestoreOthers(target, acc, d, c, []);
    RestoreKeysStep(target, acc, d, c, []);
    ServerExt(r', r);
  }

  lemma RestoreStepInsert(target: Server, acc: Server, d: string, c: string, docs: seq<Doc>)
    requires d in acc && c !in acc[d] && docs != []
    ensures Restored(target, acc[d := acc[d][c := docs]]) == InsertMany(Restored(target, acc), d, c, docs)
  {
    var acc' := acc[d := acc[d][c := docs]];
    var r, r' := Restored(target, acc), Restored(target, acc');
    GetRestored(target, acc', d);
    GetRestored(target, acc, d);
    MergeColsAdd(Get(target, d), acc[d], c, docs);
    RestoreOthers(target, acc, d, c, docs);
    RestoreKeysStep(target, acc, d, c, docs);
    InsertExt(r, r', d, c, docs);
  }

  lemma InsertExt(r: Server, r': Server, d: string, c: string, docs: seq<Doc>)
    requires docs != []
    requires r'.Keys == r.Keys + {d}
    requires forall dd :: dd != d ==> Get(r', dd) == Get(r, dd)
    requires Get(r', d) == Get(r, d)[c := Docs(Get(r, d), c) + docs]
    ensures r' == InsertMany(r, d, c, docs)
  {
    var ins := InsertMany(r, d, c, docs);
    forall dd ensures Get(r', dd) == Get(ins, dd) {
      if dd != d {
        assert Get(ins, dd) == Get(r, dd);
      }
    }
    ServerExt(r', ins);
  }

  /** Starting on a new database of the backup changes nothing yet. */
  lemma RestoreStart(target: Server, acc: Server, d: string)
    requires d !in acc
    ensures Restored(target, acc[d := map[]]) == Restored(target, acc)
  {
    var acc' := acc[d := map[]];
    var r, r' := Restored(target, acc), Restored(target, acc');
    assert !HasDocs(map[]);
    forall dd ensures Get(r', dd) == Get(r, dd) && (dd in r' <==> dd in r) {
      GetRestored(target, acc', dd);
      GetRestored(target, acc, dd);
      InRestored(target, acc', dd);
      InRestored(target, acc, dd);
      assert Get(acc', dd) == Get(acc, dd);
    }
    assert r'.Keys == r.Keys;
    ServerExt(r', r);
  }

  /** Nothing processed yet: the target as it was. */
  lemma RestoreNothing(target: Server)
    ensures Restored(target, map[]) == target
  {
    forall dd ensures Get(Restored(target, map[]), dd) == Get(target, dd) {
      GetRestored(target, map[], dd);
      var tc := Get(target, dd);
      forall c | c in tc ensures MergeCols(tc, map[])[c] == tc[c] {
      }
      assert MergeCols(tc, map[]).Keys == tc.Keys;
    }
    ServerExt(Restored(target, map[]), target);
  }

  /** One more backed-up collection: one insert_many when it holds documents, nothing otherwise. */
  lemma RestoreColumn(target: Server, acc: Server, d: string, done: Collections, c: string, docs: seq<Doc>)
    requires c !in done
    ensures Restored(target, acc[d := done[c := docs]]) ==
            if docs != [] then InsertMany(Restored(target, acc[d := done]), d, c, docs)
            else Restored(target, acc[d := done])
  {
    assert acc[d := done][d := done[c := docs]] == acc[d := done[c := docs]];
    if docs != [] {
      RestoreStepInsert(target, acc[d := done], d, c, docs);
    } else {
      RestoreStepEmpty(target, acc[d := done], d, c);
    }
  }

  lemma SameMap<K, V>(a: map<K, V>, b: map<K, V>)
    requires a.Keys == b.Keys && forall k :: k in a ==> a[k] == b[k]
    ensures a == b
  {
  }

  /** restore_data_to_new_mongo: every non-empty backed-up collection is
      appended to the target, in whatever order the backup is walked. */
  method Restore(target: Server, backup: Server) returns (result: Server)
    ensures result == Restored(target, backup)
  {
    result := target;
    ghost var acc: Server := map[];
    RestoreNothing(target);
    var dbs := backup.Keys;
    while dbs != {}
      invariant dbs <= backup.Keys
      invariant forall dd :: dd in acc <==> dd in backup && dd !in dbs
      invariant forall dd :: dd in acc ==> acc[dd] == backup[dd]
      invariant result == Restored(target, acc)
      decreases |dbs|
    {
      var d :| d in dbs;
      dbs := dbs - {d};
      RestoreStart(target, acc, d);
      ghost var done: Collections := map[];
      var collections := backup[d];
      var cols := collections.Keys;
      while cols != {}
        invariant cols <= collections.Keys
        invariant forall c :: c in done <==> c in collections && c !in cols
        invariant forall c :: c in done ==> done[c] == collections[c]
        invariant result == Restored(target, acc[d := done])
        decreases |cols|
      {
        var c :| c in cols;
        cols := cols - {c};
        var documents := collections[c];
        RestoreColumn(target, acc, d, done, c, documents);
        if documents != [] {
          result := InsertMany(result, d, c, documents);
        }
        done := done[c := documents];
      }
      SameMap(done, collections);
      acc := acc[d := done];
    }
    SameMap(acc, backup);
  }

  /** Restoring into an empty server gives exactly the non-empty collections of
      the backup, with their documents, and no empty database. */
  lemma RestoreIntoEmpty(backup: Server)
    ensures var r := Restored(map[], backup);
            && (forall d, c :: (d in r && c in r[d]) <==> (d in backup && c in backup[d] && backup[d][c] != []))
            && (forall d, c :: d in r && c in r[d] ==> r[d][c] == backup[d][c])
            && (forall d :: d in r ==> r[d] != map[])
  {
    forall d {
      RestoreIntoEmptyAt(backup, d);
    }
  }

  lemma RestoreIntoEmptyAt(backup: Server, d: string)
    ensures var r := Restored(map[], backup);
            && (forall c :: (d in r && c in r[d]) <==> (d in backup && c in backup[d] && backup[d][c] != []))
            && (forall c :: d in r && c in r[d] ==> r[d][c] == backup[d][c])
            && (d in r ==> r[d] != map[])
  {
    var r := Restored(map[], backup);
    GetRestored(map[], backup, d);
    InRestored(map[], backup, d);
    MergeColsEmpty(Get(backup, d));
    if d in r {
      var c :| c in backup[d] && backup[d][c] != [];
      assert c in Get(r, d);
    }
  }

  lemma MergeColsEmpty(bc: Collections)
    ensures forall c :: c in MergeCols(map[], bc) <==> c in bc && bc[c] != []
    ensures forall c :: c in MergeCols(map[], bc) ==> MergeCols(map[], bc)[c] == bc[c]
  {
  }

  /** backup_old_mongo_data: every database, system ones included, and every collection. */
  method Backup(server: Server) returns (backup: Server)
    ensures backup == server
  {
    backup := map[];
    var dbs := server.Keys;
    while dbs != {}
      invariant dbs <= server.Keys
      invariant forall d :: d in backup <==> d in server && d !in dbs
      invariant forall d :: d in backup ==> backup[d] == server[d]
      decreases |dbs|
    {
      var d :| d in dbs;
      dbs := dbs - {d};
      var copy: Collections := map[];
      var cols := server[d].Keys;
      while cols != {}
        invariant cols <= server[d].Keys
        invariant forall c :: c in copy <==> c in server[d] && c !in cols
        invariant forall c :: c in copy ==> copy[c] == server[d][c]
        decreases |cols|
      {
        var c :| c in cols;
        cols := cols - {c};
        copy := copy[c := server[d][c]];
      }
      ColsExt(copy, server[d]);
      backup := backup[d := copy];
    }
    SameMap(backup, server);
  }

  datatype TransferReply = TransferUsage | InvalidUrl | Transferred

  /** transfer_db_command between a reachable old server `source` and the server
      the URL names, `target`; `newTarget` is that server afterwards. */
  method TransferDb(args: seq<string>, source: Server, target: Server) returns (reply: TransferReply, newTarget: Server)
    ensures args == [] ==> reply == TransferUsage && newTarget == target
    ensures args != [] && !MatchesMongoUrl(args[0]) ==> reply == InvalidUrl && newTarget == target
    ensures args != [] && MatchesMongoUrl(args[0]) ==> reply == Transferred && newTarget == Restored(target, source)
  {
    if args == [] {
      return TransferUsage, target;
    }
    if !MatchesMongoUrl(args[0]) {
      return InvalidUrl, target;
    }
    var backup := Backup(source);
    newTarget := Restore(target, backup);
    reply := Transferred;
  }
}
