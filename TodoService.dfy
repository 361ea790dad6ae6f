/**
 * The user-scoped to-do operations (`TodoService`). Every operation first resolves who
 * is asking: the user named by the request's `username` attribute if that user exists,
 * and otherwise the user whose name the token provider reads from the response's
 * `Authorization` header, passed on exactly as the filter stored it. It then works only
 * on to-dos owned by that user.
 */
module Todos {
  import opened Wrappers
  import opened Errors
  import opened Tokens
  import opened Servlet
  import opened Store
  import JwtFilter

  /** The request and response body of create and update: a title. */
  datatype TodoDto = TodoDto(title: string)

  /** One to-do as the service hands it out. */
  datatype TodoListDto = TodoListDto(title: string, completed: bool)

  /** One page of to-dos, with the page number and size it was asked for. */
  datatype PageResponse = PageResponse(content: seq<TodoListDto>, pageNo: int, pageSize: int)

  /**
   * `todoRepository.findAllByUser(PageRequest.of(pageNo, pageSize, sort), user)`: given the
   * user's to-dos, the page number, the page size and the sort key, the page's rows in order.
   */
  type Pager = (map<nat, TodoRow>, int, int, string) -> seq<TodoRow>

  /** `findAllByUser` only pages through the rows it is given: every row of a page is one of them. */
  ghost predicate PageWithin(findAllByUser: Pager)
  {
    forall rows, pageNo, pageSize, sortBy, row | row in findAllByUser(rows, pageNo, pageSize, sortBy) ::
      row in rows.Values
  }

  /** `getUserFromServlet`: the user the `username` attribute names, if there is such an attribute and user. */
  function UserFromServlet(users: map<string, User>, attributes: map<string, string>): (u: Option<User>)
    ensures u.Some? <==> USERNAME in attributes && attributes[USERNAME] in users
    ensures u.Some? ==> u.value == users[attributes[USERNAME]]
  {
    match Lookup(attributes, USERNAME)
    case None => None
    case Some(name) => if name in users then Some(users[name]) else None
  }

  /** The user a token names: TODO_NOT_FOUND for an unknown name, the provider's exception if it throws. */
  function UserFromToken(users: map<string, User>, parse: Parse): Result<User, Exception>
  {
    match parse
    case Subject(name) => if name in users then Success(users[name]) else Failure(Custom(TodoNotFound))
    case Threw(fault) => Failure(Provider(fault))
  }

  /**
   * `getUser`: a user already found is kept; otherwise the response's `Authorization`
   * header, as stored, goes to `getUsernameFromToken`.
   */
  function GetUser(users: map<string, User>, responseHeaders: map<string, string>, codec: Codec,
                   user: Option<User>): (r: Result<User, Exception>)
    ensures user.Some? ==> r == Success(user.value)
    ensures user.None? ==>
      var parse := codec.usernameFromToken(Lookup(responseHeaders, AUTHORIZATION));
      && (parse.Subject? && parse.username in users ==> r == Success(users[parse.username]))
      && (parse.Subject? && parse.username !in users ==> r == Failure(Custom(TodoNotFound)))
      && (parse.Threw? ==> r == Failure(Provider(parse.fault)))
  {
    if user.Some? then Success(user.value)
    else UserFromToken(users, codec.usernameFromToken(Lookup(responseHeaders, AUTHORIZATION)))
  }

  /**
   * Identity resolution, `getUser(response, getUserFromServlet(request))`: the attribute's
   * user when it names an existing one, otherwise whatever the response header decodes to;
   * an unknown name there raises TODO_NOT_FOUND. A resolved user is always one of the table.
   */
  function ResolveUser(users: map<string, User>, attributes: map<string, string>,
                       responseHeaders: map<string, string>, codec: Codec): (r: Result<User, Exception>)
    ensures USERNAME in attributes && attributes[USERNAME] in users ==>
      r == Success(users[attributes[USERNAME]])
    ensures !(USERNAME in attributes && attributes[USERNAME] in users) ==>
      r == UserFromToken(users, codec.usernameFromToken(Lookup(responseHeaders, AUTHORIZATION)))
    ensures r == Failure(Custom(TodoNotFound)) <==>
      && !(USERNAME in attributes && attributes[USERNAME] in users)
      && codec.usernameFromToken(Lookup(responseHeaders, AUTHORIZATION)).Subject?
      && codec.usernameFromToken(Lookup(responseHeaders, AUTHORIZATION)).username !in users
    ensures r.Success? ==> r.value in users.Values
  {
    GetUser(users, responseHeaders, codec, UserFromServlet(users, attributes))
  }

  /** `findByIdAndUser` on the table's values: the to-do exists and belongs to the owner. */
  predicate Owns(rows: map<nat, TodoRow>, id: nat, owner: string)
  {
    id in rows && rows[id].owner == owner
  }

  /** The owner's to-dos (`user.getTodoList()`). */
  function OwnedBy(rows: map<nat, TodoRow>, owner: string): (mine: map<nat, TodoRow>)
    ensures forall id | id in rows :: id in mine <==> Owns(rows, id, owner)
    ensures forall id | id in mine :: id in rows && mine[id] == rows[id] && mine[id].owner == owner
    ensures forall row | row in mine.Values :: row.owner == owner
  {
    map id | id in rows && rows[id].owner == owner :: rows[id]
  }

  /** The stream `map` of `findAll`: each row of the page, in order, as its title and completion. */
  function Summaries(page: seq<TodoRow>): (content: seq<TodoListDto>)
    ensures |content| == |page|
    ensures forall i | 0 <= i < |page| :: content[i] == TodoListDto(page[i].title, page[i].completed)
  {
    if page == [] then [] else [TodoListDto(page[0].title, page[0].completed)] + Summaries(page[1..])
  }

  /** The table after `setTitle` on one to-do: only that to-do's title differs. */
  function Retitled(rows: map<nat, TodoRow>, id: nat, title: string): (after: map<nat, TodoRow>)
    requires id in rows
    ensures after.Keys == rows.Keys
    ensures after[id] == TodoRow(title, rows[id].completed, rows[id].owner)
    ensures forall j | j in rows && j != id :: after[j] == rows[j]
  {
    rows[id := rows[id].(title := title)]
  }

  /** The table after `complete` on one to-do: only that to-do's completion differs, and it is true. */
  function Completed(rows: map<nat, TodoRow>, id: nat): (after: map<nat, TodoRow>)
    requires id in rows
    ensures after.Keys == rows.Keys
    ensures after[id] == TodoRow(rows[id].title, true, rows[id].owner)
    ensures forall j | j in rows && j != id :: after[j] == rows[j]
  {
    rows[id := rows[id].(completed := true)]
  }

  /** Completing a to-do twice leaves the table as completing it once. */
  lemma CompletedIdempotent(rows: map<nat, TodoRow>, id: nat)
    requires id in rows
    ensures Completed(Completed(rows, id), id) == Completed(rows, id)
  {
  }

  /**
   * A request the filter authenticated as an existing user u, served with the attributes
   * and response headers the filter left, resolves to u.
   */
  lemma AuthenticatedRequestServedAsItsUser(uri: string, headers: map<string, string>, codec: Codec,
                                            users: map<string, User>, u: string)
    requires JwtFilter.Authenticate(uri, headers, codec) == JwtFilter.Forward(Some(u), None)
    requires u in users
    ensures var v := JwtFilter.Authenticate(uri, headers, codec);
      ResolveUser(users, JwtFilter.AttributesAfter(v, map[]), JwtFilter.ResponseHeadersAfter(v, map[]), codec)
        == Success(users[u])
  {
  }

  /**
   * A request the filter renewed carries no attribute, so the service decodes the
   * response header exactly as the filter wrote it: "Bearer " followed by the new token,
   * with the prefix still on.
   */
  lemma RenewedRequestDecodesPrefixedHeader(uri: string, headers: map<string, string>, codec: Codec,
                                            users: map<string, User>, t: string)
    requires JwtFilter.Authenticate(uri, headers, codec) == JwtFilter.Forward(None, Some(JwtFilter.BEARER + t))
    ensures var v := JwtFilter.Authenticate(uri, headers, codec);
      ResolveUser(users, JwtFilter.AttributesAfter(v, map[]), JwtFilter.ResponseHeadersAfter(v, map[]), codec)
        == UserFromToken(users, codec.usernameFromToken(Some(JwtFilter.BEARER + t)))
  {
  }

  /** The to-do service over the to-do table and the shared user table. */
  class TodoService {
    const todoRepository: TodoRepository
    const userRepository: UserRepository
    const codec: Codec

    constructor (todoRepository: TodoRepository, userRepository: UserRepository, codec: Codec)
      ensures this.todoRepository == todoRepository && this.userRepository == userRepository
      ensures this.codec == codec
    {
      this.todoRepository := todoRepository;
      this.userRepository := userRepository;
      this.codec := codec;
    }

    /** Who is asking, as every operation below works it out. */
    function Caller(request: Request, response: Response): Result<User, Exception>
      reads userRepository, request, response
    {
      ResolveUser(userRepository.users, request.attributes, response.headers, codec)
    }

    /**
     * `createTodo`: adds one to-do with the given title, not completed, owned by the
     * caller, under the next id, and returns the request body unchanged.
     */
    method CreateTodo(todoDto: TodoDto, request: Request, response: Response) returns (r: Result<TodoDto, Exception>)
      requires todoRepository.Valid()
      modifies todoRepository
      ensures todoRepository.Valid()
      ensures fresh(todoRepository.todos.Values - old(todoRepository.todos.Values))
      ensures Caller(request, response).Failure? ==>
        r == Failure(Caller(request, response).error) && todoRepository.Rows() == old(todoRepository.Rows())
      ensures Caller(request, response).Success? ==>
        && r == Success(todoDto)
        && todoRepository.Rows() == old(todoRepository.Rows())[old(todoRepository.nextId) :=
             TodoRow(todoDto.title, false, Caller(request, response).value.username)]
    {
      var user := UserFromServlet(userRepository.users, request.attributes);
      var resolved := GetUser(userRepository.users, response.headers, codec, user);
      if resolved.Failure? {
        return Failure(resolved.error);
      }
      var todo := todoRepository.Save(todoDto.title, resolved.value.username);
      return Success(todoDto);
    }

    /**
     * `findAll`: TODO_NOT_FOUND when the caller owns no to-do; otherwise the page the
     * repository returns, each row in order as its title and completion, with the page
     * number and size echoed.
     */
    method FindAll(pageNo: int, pageSize: int, sortBy: string, findAllByUser: Pager,
                   request: Request, response: Response) returns (r: Result<PageResponse, Exception>)
      requires PageWithin(findAllByUser)
      ensures Caller(request, response).Failure? ==> r == Failure(Caller(request, response).error)
      ensures Caller(request, response).Success? &&
              OwnedBy(todoRepository.Rows(), Caller(request, response).value.username) == map[] ==>
        r == Failure(Custom(TodoNotFound))
      ensures Caller(request, response).Success? &&
              OwnedBy(todoRepository.Rows(), Caller(request, response).value.username) != map[] ==>
        var page := findAllByUser(OwnedBy(todoRepository.Rows(), Caller(request, response).value.username),
                                  pageNo, pageSize, sortBy);
        && r.Success?
        && r.value.pageNo == pageNo && r.value.pageSize == pageSize
        && |r.value.content| == |page|
        && (forall i | 0 <= i < |page| :: r.value.content[i] == TodoListDto(page[i].title, page[i].completed))
        && (forall i | 0 <= i < |page| :: page[i] in todoRepository.Rows().Values &&
                                         page[i].owner == Caller(request, response).value.username)
    {
      var user := UserFromServlet(userRepository.users, request.attributes);
      var resolved := GetUser(userRepository.users, response.headers, codec, user);
      if resolved.Failure? {
        return Failure(resolved.error);
      }
      var mine := OwnedBy(todoRepository.Rows(), resolved.value.username);
      if mine == map[] {
        return Failure(Custom(TodoNotFound));
      }
      var page := findAllByUser(mine, pageNo, pageSize, sortBy);
      forall i | 0 <= i < |page|
        ensures page[i] in todoRepository.Rows().Values && page[i].owner == resolved.value.username
      {
        assert page[i] in findAllByUser(mine, pageNo, pageSize, sortBy);
        assert page[i] in mine.Values;
        var id :| id in mine && mine[id] == page[i];
        assert todoRepository.Rows()[id] == page[i];
      }
      return Success(PageResponse(Summaries(page), pageNo, pageSize));
    }

    /** `findTodoById`: the caller's to-do with that id, or TODO_NOT_FOUND. */
    method FindTodoById(id: nat, request: Request, response: Response) returns (r: Result<TodoListDto, Exception>)
      requires todoRepository.Valid()
      ensures Caller(request, response).Failure? ==> r == Failure(Caller(request, response).error)
      ensures Caller(request, response).Success? &&
              !Owns(todoRepository.Rows(), id, Caller(request, response).value.username) ==>
        r == Failure(Custom(TodoNotFound))
      ensures Caller(request, response).Success? &&
              Owns(todoRepository.Rows(), id, Caller(request, response).value.username) ==>
        r == Success(TodoListDto(todoRepository.Rows()[id].title, todoRepository.Rows()[id].completed))
    {
      var user := UserFromServlet(userRepository.users, request.attributes);
      var resolved := GetUser(userRepository.users, response.headers, codec, user);
      if resolved.Failure? {
        return Failure(resolved.error);
      }
      var found := todoRepository.FindByIdAndUser(id, resolved.value.username);
      if found.None? {
        return Failure(Custom(TodoNotFound));
      }
      var todo := found.value;
      return Success(TodoListDto(todo.title, todo.completed));
    }

    /**
     * `updateTodoById`: sets the title of the caller's to-do with that id and returns the
     * new title; anything else raises and changes nothing.
     */
    method UpdateTodoById(id: nat, todoDto: TodoDto, request: Request, response: Response)
      returns (r: Result<TodoDto, Exception>)
      requires todoRepository.Valid()
      modifies todoRepository.todos.Values
      ensures todoRepository.Valid()
      ensures Caller(request, response).Failure? ==>
        r == Failure(Caller(request, response).error) && todoRepository.Rows() == old(todoRepository.Rows())
      ensures Caller(request, response).Success? &&
              !Owns(old(todoRepository.Rows()), id, Caller(request, response).value.username) ==>
        r == Failure(Custom(TodoNotFound)) && todoRepository.Rows() == old(todoRepository.Rows())
      ensures Caller(request, response).Success? &&
              Owns(old(todoRepository.Rows()), id, Caller(request, response).value.username) ==>
        r == Success(TodoDto(todoDto.title)) && todoRepository.Rows() == Retitled(old(todoRepository.Rows()), id, todoDto.title)
    {
      var user := UserFromServlet(userRepository.users, request.attributes);
      var resolved := GetUser(userRepository.users, response.headers, codec, user);
      if resolved.Failure? {
        return Failure(resolved.error);
      }
      var found := todoRepository.FindByIdAndUser(id, resolved.value.username);
      if found.None? {
        return Failure(Custom(TodoNotFound));
      }
      var todo := found.value;
      todo.SetTitle(todoDto.title);
      return Success(TodoDto(todo.title));
    }

    /** `deleteTodoById`: removes the caller's to-do with that id, and only it; anything else raises and changes nothing. */
    method DeleteTodoById(id: nat, request: Request, response: Response) returns (r: Result<(), Exception>)
      requires todoRepository.Valid()
      modifies todoRepository
      ensures todoRepository.Valid()
      ensures fresh(todoRepository.todos.Values - old(todoRepository.todos.Values))
      ensures Caller(request, response).Failure? ==>
        r == Failure(Caller(request, response).error) && todoRepository.Rows() == old(todoRepository.Rows())
      ensures Caller(request, response).Success? &&
              !Owns(old(todoRepository.Rows()), id, Caller(request, response).value.username) ==>
        r == Failure(Custom(TodoNotFound)) && todoRepository.Rows() == old(todoRepository.Rows())
      ensures Caller(request, response).Success? &&
              Owns(old(todoRepository.Rows()), id, Caller(request, response).value.username) ==>
        && r == Success(())
        && todoRepository.Rows() == old(todoRepository.Rows()) - {id}
        && id !in todoRepository.Rows()
        && (forall j | j in old(todoRepository.Rows()) && j != id ::
              j in todoRepository.Rows() && todoRepository.Rows()[j] == old(todoRepository.Rows())[j])
    {
      var user := UserFromServlet(userRepository.users, request.attributes);
      var resolved := GetUser(userRepository.users, response.headers, codec, user);
      if resolved.Failure? {
        return Failure(resolved.error);
      }
      var found := todoRepository.FindByIdAndUser(id, resolved.value.username);
      if found.None? {
        return Failure(Custom(TodoNotFound));
      }
      todoRepository.Delete(found.value);
      return Success(());
    }

    /**
     * `completeTodo`: marks the caller's to-do with that id completed, leaving its title and
     * owner, and returns it; anything else raises and changes nothing.
     */
    method CompleteTodo(id: nat, request: Request, response: Response) returns (r: Result<TodoListDto, Exception>)
      requires todoRepository.Valid()
      modifies todoRepository.todos.Values
      ensures todoRepository.Valid()
      ensures Caller(request, response).Failure? ==>
        r == Failure(Caller(request, response).error) && todoRepository.Rows() == old(todoRepository.Rows())
      ensures Caller(request, response).Success? &&
              !Owns(old(todoRepository.Rows()), id, Caller(request, response).value.username) ==>
        r == Failure(Custom(TodoNotFound)) && todoRepository.Rows() == old(todoRepository.Rows())
      ensures Caller(request, response).Success? &&
              Owns(old(todoRepository.Rows()), id, Caller(request, response).value.username) ==>
        && r == Success(TodoListDto(old(todoRepository.Rows())[id].title, true))
        && todoRepository.Rows() == Completed(old(todoRepository.Rows()), id)
    {
      var user := UserFromServlet(userRepository.users, request.attributes);
      var resolved := GetUser(userRepository.users, response.headers, codec, user);
      if resolved.Failure? {
        return Failure(resolved.error);
      }
      var found := todoRepository.FindByIdAndUser(id, resolved.value.username);
      if found.None? {
        return Failure(Custom(TodoNotFound));
      }
      var todo := found.value;
      Complete(todo);
      return Success(TodoListDto(todo.title, todo.completed));
    }

    /** `complete`: sets the to-do's completion to true and nothing else. */
    method Complete(todo: Todo)
      modifies todo
      ensures todo.completed && todo.title == old(todo.title)
    {
      todo.SetCompleted(true);
    }
  }
}
