/**
 * The Firestore side of the middleware: the `admins` and `players` collections,
 * each a keyed table of documents addressed by the caller's uid.
 */
module Store {
  import opened Wrappers
  import opened JsSemantics

  /** An `admins/{uid}` document; a missing `isSuperAdmin` field reads as `Undefined`. */
  datatype AdminDoc = AdminDoc(isSuperAdmin: JsValue)

  /**
   * A `players/{uid}` document. An absent optional field is `None` (`undefined`).
   * `isSuperAdmin` holds whatever `user.isSuperAdmin || false` evaluated to.
   */
  datatype PlayerDoc = PlayerDoc(
    uid: string,
    email: Option<string>,
    name: Option<string>,
    emailVerified: bool,
    picture: Option<string>,
    isSuperAdmin: JsValue
  )

  /** `doc(path).get()` on a collection: the stored document when the key is present, else none. */
  function Lookup<D>(collection: map<string, D>, key: string): (doc: Option<D>)
    ensures doc.Some? <==> key in collection
    ensures doc.Some? ==> doc.value == collection[key]
  {
    if key in collection then Some(collection[key]) else None
  }

  /** A player document has a field whose value is `undefined`. */
  predicate HasUndefinedField(doc: PlayerDoc) {
    doc.email.None? || doc.name.None? || doc.picture.None?
  }

  /**
   * Whether `set` takes `doc`: unless the `ignoreUndefinedProperties` setting is on
   * (it is off by default), Firestore refuses a document with an `undefined` field.
   */
  predicate Accepts(ignoreUndefinedProperties: bool, doc: PlayerDoc) {
    ignoreUndefinedProperties || !HasUndefinedField(doc)
  }

  /** How a `set` call ends. */
  datatype WriteResult = Written | RefusedUndefined | ServerRejected

  /** The database handle: two collections that callers read and the middleware writes in place. */
  class Firestore {
    const ignoreUndefinedProperties: bool
    var admins: map<string, AdminDoc>
    var players: map<string, PlayerDoc>

    /** `getFirestore()` with the default settings. */
    constructor (admins: map<string, AdminDoc>, players: map<string, PlayerDoc>)
      ensures !ignoreUndefinedProperties
      ensures this.admins == admins && this.players == players
    {
      ignoreUndefinedProperties := false;
      this.admins := admins;
      this.players := players;
    }

    /** `db.doc('admins/' + uid).get()`: the document when it exists, else nothing. */
    function GetAdmin(uid: string): (doc: Option<AdminDoc>)
      reads this
      ensures doc.Some? <==> uid in admins
      ensures doc.Some? ==> doc.value == admins[uid]
    {
      Lookup(admins, uid)
    }

    /**
     * `db.collection('players').doc(uid).set(doc)`: a document with an `undefined`
     * field is refused before anything is sent; otherwise the server may reject the
     * write (`serverRejects`), and if it does not, `doc` replaces whatever `uid` held.
     */
    method SetPlayer(uid: string, doc: PlayerDoc, serverRejects: bool) returns (result: WriteResult)
      modifies this`players
      ensures result == (if !Accepts(ignoreUndefinedProperties, doc) then RefusedUndefined
                         else if serverRejects then ServerRejected else Written)
      ensures players == if result == Written then old(players)[uid := doc] else old(players)
    {
      if !Accepts(ignoreUndefinedProperties, doc) {
        return RefusedUndefined;
      }
      if serverRejects {
        return ServerRejected;
      }
      players := players[uid := doc];
      return Written;
    }
  }

  /** `getPlayerData`: the `players/{playerId}` document when it exists, else null. */
  function GetPlayerData(db: Firestore, playerId: string): (data: Option<PlayerDoc>)
    reads db
    ensures data.Some? <==> playerId in db.players
    ensures data.Some? ==> data.value == db.players[playerId]
  {
    Lookup(db.players, playerId)
  }
}
