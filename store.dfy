/**
 * The rows of the database that the passkey handlers read and write
 * (`src/lib/models.ts`): users, passkeys and invites, held as maps keyed the
 * way the queries look them up.
 */
module Store {
  import opened Wrappers
  import opened Bytes

  /** A row of `users`; `referencedBy` is the inviting user's id, if any. */
  datatype User = User(id: string, username: string, referencedBy: Option<string>)

  /**
   * A row of `passkeys` as `SELECT *` returns it: the credential id, the
   * `user_id` column, the `username` property the login reads (`None` when
   * the row has none), the SPKI public key and the backup flag. `None` in
   * `userId` is SQL `NULL`.
   */
  datatype Passkey = Passkey(id: seq<byte>, userId: Option<string>, username: Option<string>,
                             publicKeySpki: seq<byte>, backedUp: bool)

  /**
   * What `inviteDataFromCode` returns for an invite code: the recipient's
   * username (`None` when the left join finds no recipient) and the
   * activation and deletion timestamps, in seconds.
   */
  datatype Invite = Invite(recipientUsername: Option<string>, activatedOn: Option<int>, deletedOn: Option<int>)

  class Database {
    var usersById: map<string, User>
    var usersByName: map<string, User>
    var passkeys: map<seq<byte>, Passkey>
    var invites: map<string, Invite>

    /** Every row sits under the key its lookup uses. */
    predicate Valid()
      reads this
    {
      (forall id | id in usersById :: usersById[id].id == id)
      && (forall n | n in usersByName :: usersByName[n].username == n)
      && (forall k | k in passkeys :: passkeys[k].id == k)
    }

    constructor ()
      ensures Valid()
      ensures usersById == map[] && usersByName == map[] && passkeys == map[] && invites == map[]
    {
      usersById := map[];
      usersByName := map[];
      passkeys := map[];
      invites := map[];
    }

    /**
     * `getPasskeyById`: `SELECT * FROM passkeys where id = $id`. Because every
     * row sits under its own id, the map lookup finds a row exactly when some
     * stored row has that id, and then it is that row.
     */
    function PasskeyById(id: seq<byte>): (r: Option<Passkey>)
      requires Valid()
      reads this
      ensures r.Some? ==> r.value in passkeys.Values && r.value.id == id
      ensures r.None? ==> forall p | p in passkeys.Values :: p.id != id
    {
      if id in passkeys then Some(passkeys[id]) else None
    }

    /** `activateInvite`: stamps `activated_on` on the invite with this code; no row, no change. */
    method ActivateInvite(code: string, now: int)
      requires Valid()
      modifies this
      ensures Valid()
      ensures invites == if code in old(invites)
                         then old(invites)[code := old(invites)[code].(activatedOn := Some(now))]
                         else old(invites)
      ensures usersById == old(usersById) && usersByName == old(usersByName) && passkeys == old(passkeys)
    {
      if code in invites {
        invites := invites[code := invites[code].(activatedOn := Some(now))];
      }
    }

    /** `insertNewPasskey`: stores the passkey under its credential id. */
    method InsertNewPasskey(p: Passkey)
      requires Valid()
      modifies this
      ensures Valid()
      ensures passkeys == old(passkeys)[p.id := p]
      ensures usersById == old(usersById) && usersByName == old(usersByName) && invites == old(invites)
    {
      passkeys := passkeys[p.id := p];
    }
  }
}
