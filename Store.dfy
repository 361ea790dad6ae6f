/**
 * The persistent state the services work on, kept in memory: the user table, the
 * refresh-token table and the to-do table, each behind the repository operations
 * the services call (`existsByUsername`, `findByUsername`, `findTopByUserOrderByIdDesc`,
 * `findByIdAndUser`, `save`, `delete`). Ids are assigned by the database in increasing
 * order, which is the order `findTopByUserOrderByIdDesc` relies on.
 */
module Store {
  import opened Wrappers

  /** A row of the user table: the username and the encrypted password. */
  datatype User = User(username: string, password: string)

  /** A row of the refresh-token table, bound to its user by username. */
  datatype RefreshRecord = RefreshRecord(id: nat, user: string, token: string)

  /** The refresh-token table together with the id the database gives the next row. */
  datatype RefreshStore = RefreshStore(records: seq<RefreshRecord>, nextId: nat)

  /** Every id in use is below the next one to be assigned. */
  ghost predicate IdsBelow(records: seq<RefreshRecord>, bound: nat)
  {
    forall i | 0 <= i < |records| :: records[i].id < bound
  }

  /**
   * `findTopByUserOrderByIdDesc`: the user's record with the highest id, if the user has one.
   * Among records with equal ids the later one wins.
   */
  function NewestFor(records: seq<RefreshRecord>, user: string): (r: Option<RefreshRecord>)
    ensures r.None? <==> forall i | 0 <= i < |records| :: records[i].user != user
    ensures r.Some? ==> r.value in records && r.value.user == user
    ensures r.Some? ==> forall i | 0 <= i < |records| && records[i].user == user :: records[i].id <= r.value.id
  {
    if |records| == 0 then None
    else
      var earlier := NewestFor(records[..|records| - 1], user);
      var last := records[|records| - 1];
      if last.user != user then earlier
      else if earlier.Some? && earlier.value.id > last.id then earlier
      else Some(last)
  }

  /** The number of records bound to a user. */
  function CountFor(records: seq<RefreshRecord>, user: string): nat
  {
    if |records| == 0 then 0
    else CountFor(records[..|records| - 1], user) + (if records[|records| - 1].user == user then 1 else 0)
  }

  /** `refreshTokenRepository.save`: the new record gets the next id and goes at the end. */
  function Saved(store: RefreshStore, user: string, token: string): (s: RefreshStore)
  {
    RefreshStore(store.records + [RefreshRecord(store.nextId, user, token)], store.nextId + 1)
  }

  /**
   * Saving keeps the ids below the next one, and the record just saved is the user's
   * newest: the next lookup for that user finds exactly it.
   */
  lemma SavedIsNewest(store: RefreshStore, user: string, token: string)
    requires IdsBelow(store.records, store.nextId)
    ensures IdsBelow(Saved(store, user, token).records, Saved(store, user, token).nextId)
    ensures NewestFor(Saved(store, user, token).records, user) == Some(RefreshRecord(store.nextId, user, token))
  {
  }

  /** Saving a record for one user adds one to that user's count and leaves every other count alone. */
  lemma SavedCounts(store: RefreshStore, user: string, token: string, other: string)
    ensures CountFor(Saved(store, user, token).records, user) == CountFor(store.records, user) + 1
    ensures other != user ==> CountFor(Saved(store, user, token).records, other) == CountFor(store.records, other)
  {
  }

  /** The user table, keyed by the (unique) username. */
  class UserRepository {
    var users: map<string, User>

    ghost predicate Valid()
      reads this
    {
      forall name | name in users :: users[name].username == name
    }

    constructor ()
      ensures Valid() && users == map[]
    {
      users := map[];
    }

    function ExistsByUsername(username: string): (b: bool)
      reads this
      requires Valid()
      ensures b <==> exists u | u in users.Values :: u.username == username
      ensures b <==> FindByUsername(username).Some?
    {
      username in users
    }

    function FindByUsername(username: string): (u: Option<User>)
      reads this
      requires Valid()
      ensures u.Some? <==> username in users
      ensures u.Some? ==> u.value == users[username] && u.value.username == username
    {
      if username in users then Some(users[username]) else None
    }

    method Save(user: User)
      requires Valid()
      modifies this
      ensures Valid() && users == old(users)[user.username := user]
    {
      users := users[user.username := user];
    }
  }

  /** The refresh-token table: append-only, ids handed out in increasing order. */
  class RefreshTokenRepository {
    var records: seq<RefreshRecord>
    var nextId: nat

    ghost predicate Valid()
      reads this
    {
      IdsBelow(records, nextId)
    }

    function Contents(): RefreshStore
      reads this
    {
      RefreshStore(records, nextId)
    }

    constructor ()
      ensures Valid() && records == []
    {
      records := [];
      nextId := 0;
    }

    function FindTopByUserOrderByIdDesc(user: string): (top: Option<RefreshRecord>)
      reads this
      ensures top == NewestFor(records, user)
    {
      NewestFor(records, user)
    }

    method Save(user: string, token: string)
      requires Valid()
      modifies this
      ensures Valid() && Contents() == Saved(old(Contents()), user, token)
    {
      SavedIsNewest(Contents(), user, token);
      records := records + [RefreshRecord(nextId, user, token)];
      nextId := nextId + 1;
    }
  }

  /** A to-do item as the table holds it. */
  datatype TodoRow = TodoRow(title: string, completed: bool, owner: string)

  /** The to-do entity: its id and owner are fixed, its title and completion are set in place. */
  class Todo {
    const id: nat
    const owner: string
    var title: string
    var completed: bool

    constructor (id: nat, title: string, owner: string)
      ensures this.id == id && this.title == title && this.owner == owner && !completed
    {
      this.id := id;
      this.owner := owner;
      this.title := title;
      completed := false;
    }

    method SetTitle(title: string)
      modifies this
      ensures this.title == title && completed == old(completed)
    {
      this.title := title;
    }

    method SetCompleted(completed: bool)
      modifies this
      ensures this.completed == completed && title == old(title)
    {
      this.completed := completed;
    }
  }

  /** The to-do table, keyed by id; each entity sits under its own id. */
  class TodoRepository {
    var todos: map<nat, Todo>
    var nextId: nat

    ghost predicate Valid()
      reads this
    {
      forall id | id in todos :: todos[id].id == id && id < nextId
    }

    /** The table's contents as values. */
    function Rows(): map<nat, TodoRow>
      reads this, todos.Values
    {
      map id | id in todos :: TodoRow(todos[id].title, todos[id].completed, todos[id].owner)
    }

    constructor ()
      ensures Valid() && todos == map[]
    {
      todos := map[];
      nextId := 0;
    }

    /** `findByIdAndUser`: the entity with this id, provided the owner matches. */
    function FindByIdAndUser(id: nat, owner: string): (t: Option<Todo>)
      reads this
      requires Valid()
      ensures t.Some? <==> id in todos && todos[id].owner == owner
      ensures t.Some? ==> t.value == todos[id] && t.value.id == id && t.value.owner == owner
    {
      if id in todos && todos[id].owner == owner then Some(todos[id]) else None
    }

    /** `save` of a new entity: it gets the next id. */
    method Save(title: string, owner: string) returns (todo: Todo)
      requires Valid()
      modifies this
      ensures Valid() && fresh(todo) && todo.id == old(nextId)
      ensures fresh(todos.Values - old(todos.Values))
      ensures todos == old(todos)[todo.id := todo]
      ensures Rows() == old(Rows())[todo.id := TodoRow(title, false, owner)]
    {
      todo := new Todo(nextId, title, owner);
      todos := todos[nextId := todo];
      nextId := nextId + 1;
    }

    /** `delete`: removes the entity's row. */
    method Delete(todo: Todo)
      requires Valid()
      modifies this
      ensures Valid() && todos == old(todos) - {todo.id}
      ensures todos.Values <= old(todos.Values)
      ensures Rows() == old(Rows()) - {todo.id}
    {
      todos := todos - {todo.id};
    }
  }
}
