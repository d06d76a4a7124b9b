/**
 * The MongoDB collection of user records, as far as the service uses it:
 * count by username, insert one, find one. The collection is an ordered
 * sequence of documents; nothing in it forces usernames to be unique, so
 * uniqueness is a property the service has to keep. A failing database call
 * (connection, timeout, decode) is a `fails` parameter.
 */
module Store {
  import opened Wrappers

  /** A stored account; the Mongo ObjectID is opaque and left out. */
  datatype User = User(username: string, password: string, email: string)

  datatype StoreError = ErrNoDocuments | Unavailable

  /** How many documents have this username. */
  function Count(docs: seq<User>, username: string): (n: nat)
    ensures n <= |docs|
    ensures n == 0 <==> Absent(docs, username)
  {
    if docs == [] then 0
    else Count(docs[..|docs| - 1], username) + (if docs[|docs| - 1].username == username then 1 else 0)
  }

  ghost predicate Absent(docs: seq<User>, username: string)
  {
    forall i | 0 <= i < |docs| :: docs[i].username != username
  }

  /** The first document with this username, the one FindOne returns. */
  function Lookup(docs: seq<User>, username: string): (r: Option<User>)
    ensures r.None? <==> Absent(docs, username)
    ensures r.Some? ==> r.value in docs && r.value.username == username
  {
    if docs == [] then None
    else if docs[0].username == username then Some(docs[0])
    else Lookup(docs[1..], username)
  }

  /** At most one document per username. */
  ghost predicate Unique(docs: seq<User>)
  {
    forall i, j | 0 <= i < j < |docs| :: docs[i].username != docs[j].username
  }

  /** Under uniqueness no username is counted twice. */
  lemma {:induction false} UniqueCountsAtMostOne(docs: seq<User>, username: string)
    requires Unique(docs)
    ensures Count(docs, username) <= 1
  {
    if docs != [] {
      var init := docs[..|docs| - 1];
      assert Unique(init);
      UniqueCountsAtMostOne(init, username);
      if docs[|docs| - 1].username == username {
        assert Absent(init, username);
      }
    }
  }

  /** Appending a record under an unused username keeps usernames unique. */
  lemma UniqueAfterAppend(docs: seq<User>, user: User)
    requires Unique(docs) && Absent(docs, user.username)
    ensures Unique(docs + [user])
  {
  }

  /** After appending a record under an unused username, finding that username
      gives the new record and finding any other gives what it gave before. */
  lemma {:induction false} LookupAfterAppend(docs: seq<User>, user: User, username: string)
    requires Absent(docs, user.username)
    ensures Lookup(docs + [user], username) == if username == user.username then Some(user) else Lookup(docs, username)
  {
    if docs == [] {
      assert docs + [user] == [user];
    } else {
      assert (docs + [user])[1..] == docs[1..] + [user];
      assert Absent(docs[1..], user.username) by {
        forall i | 0 <= i < |docs[1..]| ensures docs[1..][i].username != user.username {
          assert docs[1..][i] == docs[i + 1];
        }
      }
      LookupAfterAppend(docs[1..], user, username);
    }
  }

  class Collection {
    var docs: seq<User>

    /** An empty collection; the service itself receives an existing one. */
    constructor ()
      ensures docs == []
    {
      docs := [];
    }

    /** CountDocuments with the filter {"username": username}. */
    method CountDocuments(username: string, fails: bool) returns (r: Result<nat, StoreError>)
      ensures fails ==> r == Failure(Unavailable)
      ensures !fails ==> r == Success(Count(docs, username))
    {
      if fails {
        return Failure(Unavailable);
      }
      var n: nat := 0;
      var i := 0;
      while i < |docs|
        invariant 0 <= i <= |docs|
        invariant n == Count(docs[..i], username)
      {
        assert docs[..i + 1][..i] == docs[..i];
        if docs[i].username == username {
          n := n + 1;
        }
        i := i + 1;
      }
      assert docs[..i] == docs;
      return Success(n);
    }

    /** FindOne with the filter {"username": username}, decoded into a User. */
    method FindOne(username: string, fails: bool) returns (r: Result<User, StoreError>)
      ensures fails ==> r == Failure(Unavailable)
      ensures !fails && Absent(docs, username) ==> r == Failure(ErrNoDocuments)
      ensures !fails && !Absent(docs, username) ==> r == Success(Lookup(docs, username).value)
    {
      if fails {
        return Failure(Unavailable);
      }
      var i := 0;
      while i < |docs|
        invariant 0 <= i <= |docs|
        invariant Lookup(docs[i..], username) == Lookup(docs, username)
      {
        if docs[i].username == username {
          return Success(docs[i]);
        }
        assert docs[i..][1..] == docs[i + 1..];
        i := i + 1;
      }
      return Failure(ErrNoDocuments);
    }

    /** InsertOne: a failing insert writes nothing. */
    method InsertOne(user: User, fails: bool) returns (r: Result<(), StoreError>)
      modifies this
      ensures r == if fails then Failure(Unavailable) else Success(())
      ensures docs == if fails then old(docs) else old(docs) + [user]
    {
      if fails {
        return Failure(Unavailable);
      }
      docs := docs + [user];
      return Success(());
    }
  }
}
