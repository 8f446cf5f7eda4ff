/** The `relationships` and `birthdays` tables as in-memory maps with the
    same keyed insert-or-replace and delete semantics. */
module Store {
  import opened Options
  import opened Calendar

  type UserId = int

  /** A `relationships` row; the user id is its primary key. */
  datatype Relationship = Relationship(start: Date, partner: Option<string>)

  class RecordStore {
    /** `relationships`, primary key `user_id`. */
    var relationships: map<UserId, Relationship>
    /** `birthdays`, primary key `(user_id, name)`. */
    var birthdays: map<(UserId, string), Date>

    /** Every stored date is a real date: what `isoformat()` wrote,
        `fromisoformat()` reads back. */
    ghost predicate Valid()
      reads this
    {
      (forall u :: u in relationships ==> ValidDate(relationships[u].start))
      && (forall k :: k in birthdays ==> ValidDate(birthdays[k]))
    }

    /** `init_db` on a fresh database: both tables exist and are empty. */
    constructor ()
      ensures Valid()
      ensures relationships == map[] && birthdays == map[]
    {
      relationships := map[];
      birthdays := map[];
    }

    /** `set_relationship_data`: INSERT OR REPLACE, one row per user. */
    method SetRelationship(user: UserId, start: Date, partner: Option<string>)
      requires Valid() && ValidDate(start)
      modifies this
      ensures Valid()
      ensures relationships == old(relationships)[user := Relationship(start, partner)]
      ensures birthdays == old(birthdays)
    {
      relationships := relationships[user := Relationship(start, partner)];
    }

    /** `get_relationship_data`: the row, or `None`. */
    method GetRelationship(user: UserId) returns (r: Option<Relationship>)
      ensures r.Some? <==> user in relationships
      ensures r.Some? ==> r.value == relationships[user]
    {
      if user in relationships {
        r := Some(relationships[user]);
      } else {
        r := None;
      }
    }

    /** `add_birthday`: INSERT OR REPLACE on the key (user, name). */
    method AddBirthday(user: UserId, name: string, date: Date)
      requires Valid() && ValidDate(date)
      modifies this
      ensures Valid()
      ensures birthdays == old(birthdays)[(user, name) := date]
      ensures relationships == old(relationships)
    {
      birthdays := birthdays[(user, name) := date];
    }

    /** The names the user has a birthday stored under. */
    function BirthdayNames(user: UserId): (names: set<string>)
      reads this
      ensures forall name :: name in names <==> (user, name) in birthdays
    {
      var names := set k | k in birthdays && k.0 == user :: k.1;
      assert forall name :: (user, name) in birthdays ==> name in names by {
        forall name | (user, name) in birthdays ensures name in names {
          var k := (user, name);
          assert k in birthdays && k.0 == user;
        }
      }
      names
    }

    /** `get_birthdays`: the user's rows, name to date (SQLite fixes no order). */
    method GetBirthdays(user: UserId) returns (rows: map<string, Date>)
      ensures forall name :: name in rows <==> (user, name) in birthdays
      ensures forall name :: name in rows ==> rows[name] == birthdays[(user, name)]
    {
      rows := map k | k in birthdays && k.0 == user :: k.1 := birthdays[k];
      forall name | (user, name) in birthdays ensures name in rows {
        var k := (user, name);
        assert k in birthdays && k.0 == user;
      }
    }

    /** `delete_birthday`: removes the key (user, name); nothing if absent. */
    method DeleteBirthday(user: UserId, name: string)
      requires Valid()
      modifies this
      ensures Valid()
      ensures birthdays == old(birthdays) - {(user, name)}
      ensures (user, name) !in old(birthdays) ==> birthdays == old(birthdays)
      ensures relationships == old(relationships)
    {
      birthdays := birthdays - {(user, name)};
    }
  }

  /** Adding the same name twice leaves one row, with the later date, and
      another user's row with that name stays apart. */
  method UpsertScenario() returns (first: map<string, Date>, other: map<string, Date>)
    ensures first == map["Маша" := Date(2024, 3, 20)]
    ensures other == map["Маша" := Date(2024, 3, 15)]
  {
    var store := new RecordStore();
    var name := "Маша";
    store.AddBirthday(1, name, Date(2024, 3, 15));
    store.AddBirthday(2, name, Date(2024, 3, 15));
    store.AddBirthday(1, name, Date(2024, 3, 20));
    assert store.birthdays == map[(1, name) := Date(2024, 3, 20), (2, name) := Date(2024, 3, 15)];
    first := store.GetBirthdays(1);
    assert first.Keys == {name} by {
      assert forall n :: n in first.Keys <==> (1, n) in store.birthdays;
    }
    other := store.GetBirthdays(2);
    assert other.Keys == {name} by {
      assert forall n :: n in other.Keys <==> (2, n) in store.birthdays;
    }
  }

  /** Deleting a name, twice, leaves the user no rows and keeps another
      user's row with that name. */
  method DeleteScenario() returns (afterDelete: map<string, Date>, other: map<string, Date>)
    ensures afterDelete == map[]
    ensures other == map["Маша" := Date(2024, 3, 15)]
  {
    var store := new RecordStore();
    var name := "Маша";
    store.AddBirthday(1, name, Date(2024, 3, 20));
    store.AddBirthday(2, name, Date(2024, 3, 15));
    store.DeleteBirthday(1, name);
    store.DeleteBirthday(1, name);
    assert store.birthdays == map[(2, name) := Date(2024, 3, 15)];
    afterDelete := store.GetBirthdays(1);
    assert afterDelete.Keys == {} by {
      assert forall n :: n in afterDelete.Keys <==> (1, n) in store.birthdays;
    }
    other := store.GetBirthdays(2);
    assert other.Keys == {name} by {
      assert forall n :: n in other.Keys <==> (2, n) in store.birthdays;
    }
  }
}
