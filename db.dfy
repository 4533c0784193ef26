/**
 * The two database tables the services use, held in memory. Record ids
 * (generated by the database) and creation times (its clock) are supplied by
 * the caller; creating a record whose id is already taken fails the way a
 * unique constraint does. (A taken email never reaches the table: the auth
 * service refuses it first.)
 */
module Db {

  type Id = string

  datatype User = User(id: Id, email: string, name: string, password: string, createdAt: int)

  datatype Task = Task(id: Id, title: string, completed: bool, userId: Id, createdAt: int)

  datatype StoreError = UniqueConstraintFailed

  /** Some user already has this id. */
  predicate IdTaken(users: map<string, User>, id: Id)
  {
    exists e :: e in users && users[e].id == id
  }

  /** Users are filed under their own email, and no two share an id. */
  ghost predicate UsersWellFormed(users: map<string, User>)
  {
    && (forall e :: e in users ==> users[e].email == e)
    && (forall e1, e2 :: e1 in users && e2 in users && users[e1].id == users[e2].id ==> e1 == e2)
  }

  /** Tasks are filed under their own id. */
  ghost predicate TasksWellFormed(tasks: map<Id, Task>)
  {
    forall k :: k in tasks ==> tasks[k].id == k
  }

  /** The user table, indexed by its unique email column. */
  class UserTable {
    var byEmail: map<string, User>

    ghost predicate Valid()
      reads this
    {
      UsersWellFormed(byEmail)
    }

    constructor ()
      ensures Valid() && byEmail == map[]
    {
      byEmail := map[];
    }
  }

  /** The task table, indexed by its id. */
  class TaskTable {
    var byId: map<Id, Task>

    ghost predicate Valid()
      reads this
    {
      TasksWellFormed(byId)
    }

    constructor ()
      ensures Valid() && byId == map[]
    {
      byId := map[];
    }
  }
}
