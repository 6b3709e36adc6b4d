/** The set of bot administrators: how it is loaded at start-up
    (nexichat/__main__.py) and the owner's add/remove/list commands
    (nexichat/mplugin/Sudoers.py). */
module Sudoers {
  import opened Base

  /** The stored sudo document: missing, present without a `sudoers` field, or holding ids. */
  datatype SudoDoc = NoDoc | NoField | Ids(ids: seq<int>)

  function StoredIds(doc: SudoDoc): set<int>
  {
    if doc.Ids? then set x | x in doc.ids else {}
  }

  // ---------------------------------------------------------------------------
  // Resolving the target user

  /** The lookup key for a username or id argument: nothing for an empty
      argument, otherwise the argument with every '@' removed. */
  function LookupKey(input: string): (key: Option<string>)
    ensures key.None? <==> input == []
    ensures key.Some? ==> '@' !in key.value
    ensures key.Some? ==> forall c :: c in key.value <==> c in input && c != '@'
    ensures key.Some? ==> key.value == RemoveChar(input, '@')
  {
    if input == [] then None else Some(RemoveChar(input, '@'))
  }

  lemma {:induction false} RemoveCharIdempotent(s: string, c: char)
    ensures RemoveChar(RemoveChar(s, c), c) == RemoveChar(s, c)
  {
    if s != [] {
      RemoveCharIdempotent(s[1..], c);
      if s[0] != c {
        assert ([s[0]] + RemoveChar(s[1..], c))[1..] == RemoveChar(s[1..], c);
      }
    }
  }

  /** "@name" and "name" are looked up under the same key. */
  lemma {:induction false} LookupKeyIgnoresAt(name: string)
    requires name != [] && '@' !in name
    ensures LookupKey("@" + name) == LookupKey(name)
  {
    assert ("@" + name)[0] == '@' && ("@" + name)[1..] == name;
    RemoveCharNone(name, '@');
  }

  /** Removing '@' works piece by piece: the other characters keep their order. */
  lemma {:induction false} RemoveCharConcat(a: string, b: string, c: char)
    ensures RemoveChar(a + b, c) == RemoveChar(a, c) + RemoveChar(b, c)
  {
    if a != [] {
      RemoveCharConcat(a[1..], b, c);
      assert (a + b)[1..] == a[1..] + b;
    } else {
      assert a + b == b;
    }
  }

  /** The key of "user@name" is "username": the characters around an '@' are kept, in order. */
  lemma {:induction false} LookupKeyJoinsAround(a: string, b: string)
    requires '@' !in a && '@' !in b
    ensures LookupKey(a + "@" + b) == Some(a + b)
  {
    var at: string := "@";
    assert at[1..] == [];
    assert RemoveChar(at, '@') == [];
    RemoveCharNone(a, '@');
    RemoveCharNone(b, '@');
    RemoveCharConcat(a, at, '@');
    assert RemoveChar(a + at, '@') == a;
    RemoveCharConcat(a + at, b, '@');
    assert a + at + b != [];
  }

  lemma {:induction false} RemoveCharNone(s: string, c: char)
    requires c !in s
    ensures RemoveChar(s, c) == s
  {
    if s != [] {
      RemoveCharNone(s[1..], c);
      assert s == [s[0]] + s[1..];
    }
  }

  /** validate_user: `lookup` stands for the user lookup, None when it raises. */
  function ValidateUser(input: string, lookup: string -> Option<int>): (id: Option<int>)
    ensures input == [] ==> id.None?
    ensures id.Some? ==> exists key :: LookupKey(input) == Some(key) && lookup(key) == id
    ensures input != [] ==> id == lookup(RemoveChar(input, '@'))
  {
    match LookupKey(input)
    case None => None
    case Some(key) => lookup(key)
  }

  /** The message a command replies to: none, one without an author (sent on
      behalf of a channel or by an anonymous admin), or one from a user. */
  datatype Reply = NoReply | AuthorlessReply | ReplyFrom(author: int)

  /** Whom a command is about. Reading the author of an authorless reply
      raises, which ends the handler: `AuthorMissing`. */
  datatype Target = Usage | Unresolved | AuthorMissing | User(id: int)

  /** Whom a command is about: the author of the replied-to message, else the
      first argument, else a usage reply. An id of 0 counts as no user. */
  function ResolveTarget(reply: Reply, command: seq<string>, lookup: string -> Option<int>): (t: Target)
    ensures t.User? ==> t.id != 0
    ensures t.AuthorMissing? <==> reply.AuthorlessReply?
    ensures reply.ReplyFrom? ==> (t.User? <==> reply.author != 0) && (t.User? ==> t.id == reply.author)
    ensures reply.NoReply? && |command| < 2 ==> t == Usage
    ensures reply.NoReply? && |command| >= 2 && command[1] == [] ==> t == Unresolved
    ensures reply.NoReply? && |command| >= 2 ==>
              (t.User? <==> ValidateUser(command[1], lookup).Some? && ValidateUser(command[1], lookup).value != 0)
    ensures t.Usage? <==> reply.NoReply? && |command| < 2
  {
    match reply
    case AuthorlessReply => AuthorMissing
    case ReplyFrom(author) => if author == 0 then Unresolved else User(author)
    case NoReply =>
      if |command| < 2 then Usage
      else
        var id := ValidateUser(command[1], lookup);
        if id.None? || id.value == 0 then Unresolved else User(id.value)
  }

  // ---------------------------------------------------------------------------
  // The sudo set

  datatype SudoReply =
    | MongoMissing
    | AskForUser
    | NoUser
    | AlreadySudo(id: int)
    | NotSudo(id: int)
    | Added(id: int)
    | Removed(id: int)
    | Failed
    /** The handler raised before answering. */
    | Aborted

  /** What the listing shows: nothing, or the owner and the other ids. */
  datatype Listing = NoSudoers | OwnerAndOthers(owner: int, others: set<int>)

  class SudoUsers {
    /** OWNER_ID */
    const owner: int
    /** SUDOERS */
    var members: set<int>

    constructor (ownerId: int)
      ensures owner == ownerId && members == {}
    {
      owner := ownerId;
      members := {};
    }

    /** load_sudoers; `readOk` is false when reading the document raises. */
    method Load(readOk: bool, doc: SudoDoc)
      modifies this
      ensures members == if readOk then old(members) + {owner} + StoredIds(doc) else old(members)
    {
      if !readOk {
        return;
      }
      var ids := if doc.Ids? then doc.ids else [];
      members := members + {owner};
      for i := 0 to |ids|
        invariant members == old(members) + {owner} + set x | x in ids[..i]
      {
        assert ids[..i + 1] == ids[..i] + [ids[i]];
        members := members + {ids[i]};
      }
      assert ids[..|ids|] == ids;
    }

    /** add_sudo_user; `addOk` is what the persistence call returned. */
    method Add(mongoConfigured: bool, reply: Reply, command: seq<string>,
               lookup: string -> Option<int>, addOk: bool) returns (out: SudoReply)
      modifies this
      ensures var t := ResolveTarget(reply, command, lookup);
              && (!mongoConfigured ==> out == MongoMissing)
              && (mongoConfigured && t.Usage? ==> out == AskForUser)
              && (mongoConfigured && t.Unresolved? ==> out == NoUser)
              && (mongoConfigured && t.AuthorMissing? ==> out == Aborted)
              && (mongoConfigured && t.User? && t.id in old(members) ==> out == AlreadySudo(t.id))
              && (mongoConfigured && t.User? && t.id !in old(members) ==>
                    out == if addOk then Added(t.id) else Failed)
      ensures members == if out.Added? then old(members) + {out.id} else old(members)
    {
      if !mongoConfigured {
        return MongoMissing;
      }
      var t := ResolveTarget(reply, command, lookup);
      if t.Usage? {
        return AskForUser;
      }
      if t.Unresolved? {
        return NoUser;
      }
      if t.AuthorMissing? {
        return Aborted;
      }
      if t.id in members {
        return AlreadySudo(t.id);
      }
      if addOk {
        members := members + {t.id};
        out := Added(t.id);
      } else {
        out := Failed;
      }
    }

    /** remove_sudo_user; `removeOk` is what the persistence call returned. */
    method Remove(mongoConfigured: bool, reply: Reply, command: seq<string>,
                  lookup: string -> Option<int>, removeOk: bool) returns (out: SudoReply)
      modifies this
      ensures var t := ResolveTarget(reply, command, lookup);
              && (!mongoConfigured ==> out == MongoMissing)
              && (mongoConfigured && t.Usage? ==> out == AskForUser)
              && (mongoConfigured && t.Unresolved? ==> out == NoUser)
              && (mongoConfigured && t.AuthorMissing? ==> out == Aborted)
              && (mongoConfigured && t.User? && t.id !in old(members) ==> out == NotSudo(t.id))
              && (mongoConfigured && t.User? && t.id in old(members) ==>
                    out == if removeOk then Removed(t.id) else Failed)
      ensures members == if out.Removed? then old(members) - {out.id} else old(members)
    {
      if !mongoConfigured {
        return MongoMissing;
      }
      var t := ResolveTarget(reply, command, lookup);
      if t.Usage? {
        return AskForUser;
      }
      if t.Unresolved? {
        return NoUser;
      }
      if t.AuthorMissing? {
        return Aborted;
      }
      if t.id !in members {
        return NotSudo(t.id);
      }
      if removeOk {
        members := members - {t.id};
        out := Removed(t.id);
      } else {
        out := Failed;
      }
    }

    /** list_sudoers: the owner is shown on its own line and never among the others. */
    function List(): (r: Listing)
      reads this
      ensures r.NoSudoers? <==> members == {}
      ensures r.OwnerAndOthers? ==> r.owner == owner && owner !in r.others
      ensures r.OwnerAndOthers? ==> forall x :: x in r.others <==> x in members && x != owner
    {
      if members == {} then NoSudoers else OwnerAndOthers(owner, members - {owner})
    }
  }

  /** The "Sudo Users" section is printed only when someone besides the owner is in the set. */
  predicate ShowsSudoSection(l: Listing)
  {
    l.OwnerAndOthers? && l.others != {}
  }

  lemma SudoSectionIff(users: SudoUsers)
    ensures ShowsSudoSection(users.List()) <==> exists x :: x in users.members && x != users.owner
  {
    if x :| x in users.members && x != users.owner {
      assert x in users.List().others;
    } else {
      forall y | y in users.members - {users.owner} ensures false {
      }
      assert users.members - {users.owner} == {};
    }
  }
}
