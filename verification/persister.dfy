/**
 * `JsonPersister`: one JSON file per object, under
 * `<base>/<type name>/<shard code of the trimmed id>/<id>.json`.
 *
 * The file system is a `FileStore`: the files below the base directory keyed
 * by their path relative to it, and the files of the process's working
 * directory (where a blank id sends a record, since its directory is null).
 * Classes are described by their declared fields as reflection reports them;
 * an object by its class and the values of its String fields. The JSON codec,
 * `toString` and the id provider are functions the store is given.
 */
module Persister {
  import opened Wrappers
  import opened JavaLang
  import opened Strings
  import opened ShardHash
  import opened FileTree

  /* ---------------------------------------------------------------- */
  /* Classes and objects                                               */
  /* ---------------------------------------------------------------- */

  /** A declared field: its name, whether it carries `@Id`, and its type and modifiers. */
  datatype FieldDecl = FieldDecl(name: string, isId: bool, isString: bool, isStatic: bool, isFinal: bool)

  /** A class: its type name and its declared fields in declaration order. */
  datatype ClassDecl = ClassDecl(typeName: string, fields: seq<FieldDecl>)

  /** An object's state: its class and its String fields that are not null. */
  datatype ObjectState = ObjectState(cls: ClassDecl, values: map<string, string>)

  /** A live object, whose id field the store may set. */
  class Entity {
    const cls: ClassDecl
    var values: map<string, string>

    constructor (cls: ClassDecl, values: map<string, string>)
      ensures this.cls == cls && this.values == values
    {
      this.cls := cls;
      this.values := values;
    }

    function State(): ObjectState
      reads this
    {
      ObjectState(cls, values)
    }
  }

  /** `getFieldValue`: a String field's value, null when unset. */
  function FieldValue(values: map<string, string>, name: string): Option<string>
  {
    if name in values then Some(values[name]) else None
  }

  /* ---------------------------------------------------------------- */
  /* Where a record lives                                              */
  /* ---------------------------------------------------------------- */

  /** A file: below the base directory, or in the working directory. */
  datatype Location = InBase(path: string) | InWorkingDir(name: string)

  const ShardAlphabet: string := "0123456789abcdefghijklmnopqrstuvwxyz"
  const ShardLength: int := 5
  const JsonSuffix: string := ".json"

  /**
   * The shard directory name of an id: `getHash(id.trim(), 5, "0-9a-z")` over
   * the UTF-8 bytes of the trimmed id, computed with the corrected hash, whose
   * index stays in range where the original's can overflow and throw.
   */
  function ShardCode(id: string): (code: string)
    ensures !IsBlank(Some(id)) ==> |code| == ShardLength && forall c :: c in code ==> c in ShardAlphabet
  {
    var bytes := Utf8(Trim(id));
    if IsBlank(Some(id)) then HashFixed(Some(bytes), ShardLength, ShardAlphabet)
    else
      TrimEmptyIff(id);
      Utf8Length(Trim(id));
      HashFixedShape(Some(bytes), ShardLength, ShardAlphabet);
      HashFixed(Some(bytes), ShardLength, ShardAlphabet)
  }

  /**
   * Wherever `getHash` as written answers for an id, the shard code is that
   * answer; the store differs from it only where `getHash` throws.
   */
  lemma ShardCodeAgrees(id: string)
    requires Hash(Some(Utf8(Trim(id))), ShardLength, ShardAlphabet).Success?
    ensures ShardCode(id) == Hash(Some(Utf8(Trim(id))), ShardLength, ShardAlphabet).value
  {
    HashFixedAgrees(Some(Utf8(Trim(id))), ShardLength, ShardAlphabet);
  }

  /**
   * `getFile(class, id)`: for a blank id `getDir` is null and the file is
   * `<id>.json` in the working directory; otherwise
   * `<type name>/<shard code>/<id>.json` below the base directory. The file
   * name keeps the id untrimmed.
   */
  function RecordFile(cls: ClassDecl, id: string): (loc: Location)
    ensures loc.InWorkingDir? <==> IsBlank(Some(id))
    ensures loc.InWorkingDir? ==> loc.name == id + JsonSuffix
    ensures loc.InBase? ==> loc.path == cls.typeName + "/" + ShardCode(id) + "/" + id + JsonSuffix
  {
    if IsBlank(Some(id)) then InWorkingDir(id + JsonSuffix)
    else InBase(cls.typeName + "/" + ShardCode(id) + "/" + id + JsonSuffix)
  }

  /** Ids that are equal after trimming share their shard directory. */
  lemma {:induction false} SameTrimSameShard(cls: ClassDecl, a: string, b: string)
    requires !IsBlank(Some(a)) && !IsBlank(Some(b)) && Trim(a) == Trim(b)
    ensures RecordFile(cls, a).path[..|cls.typeName| + 1 + ShardLength] == RecordFile(cls, b).path[..|cls.typeName| + 1 + ShardLength]
  {
    var n := |cls.typeName| + 1 + ShardLength;
    assert RecordFile(cls, a).path[..n] == cls.typeName + "/" + ShardCode(a);
    assert RecordFile(cls, b).path[..n] == cls.typeName + "/" + ShardCode(b);
  }

  /** In `t + "/" + r` with `t` free of `/`, the first `/` is at `|t|`. */
  lemma FirstSlash(t: string, r: string)
    requires '/' !in t
    ensures (t + "/" + r)[|t|] == '/'
    ensures forall i :: 0 <= i < |t| ==> (t + "/" + r)[i] != '/'
  {
    forall i | 0 <= i < |t|
      ensures (t + "/" + r)[i] != '/'
    {
      assert (t + "/" + r)[i] == t[i];
    }
  }

  /** Two `/`-free prefixes followed by `/` that start the same string are equal. */
  lemma SlashPrefix(t1: string, r1: string, t2: string, r2: string)
    requires '/' !in t1 && '/' !in t2 && t1 + "/" + r1 == t2 + "/" + r2
    ensures t1 == t2 && r1 == r2
  {
    var p := t1 + "/" + r1;
    FirstSlash(t1, r1);
    FirstSlash(t2, r2);
    assert |t1| == |t2|;
    assert t1 == p[..|t1|] == t2;
    assert r1 == p[|t1| + 1..] == r2;
  }

  /**
   * Records of different types or different non-blank ids never share a file,
   * as long as type names contain no `/`.
   */
  lemma RecordFileInjective(c1: ClassDecl, id1: string, c2: ClassDecl, id2: string)
    requires '/' !in c1.typeName && '/' !in c2.typeName
    requires !IsBlank(Some(id1)) && !IsBlank(Some(id2))
    requires RecordFile(c1, id1) == RecordFile(c2, id2)
    ensures c1.typeName == c2.typeName && id1 == id2
  {
    RecordPathSplit(c1.typeName, ShardCode(id1), id1, c2.typeName, ShardCode(id2), id2);
  }

  /** A record path determines its type name and id once the shard code's length is fixed. */
  lemma RecordPathSplit(t1: string, k1: string, id1: string, t2: string, k2: string, id2: string)
    requires '/' !in t1 && '/' !in t2 && |k1| == |k2|
    requires t1 + "/" + k1 + "/" + id1 + JsonSuffix == t2 + "/" + k2 + "/" + id2 + JsonSuffix
    ensures t1 == t2 && id1 == id2
  {
    var r1 := k1 + "/" + id1 + JsonSuffix;
    var r2 := k2 + "/" + id2 + JsonSuffix;
    assert t1 + "/" + r1 == t1 + "/" + k1 + "/" + id1 + JsonSuffix;
    assert t2 + "/" + r2 == t2 + "/" + k2 + "/" + id2 + JsonSuffix;
    SlashPrefix(t1, r1, t2, r2);
    assert id1 + JsonSuffix == r1[|k1| + 1..] == r2[|k2| + 1..] == id2 + JsonSuffix;
    assert id1 == (id1 + JsonSuffix)[..|id1|];
    assert id2 == (id2 + JsonSuffix)[..|id2|];
  }

  /* ---------------------------------------------------------------- */
  /* The files                                                         */
  /* ---------------------------------------------------------------- */

  /** The regular files the store can reach, by location. */
  datatype FileStore = FileStore(base: map<string, seq<Byte>>, workingDir: map<string, seq<Byte>>)
  {
    /** The bytes of the file at `loc`, or nothing if it does not exist. */
    function Get(loc: Location): Option<seq<Byte>>
    {
      match loc
      case InBase(p) => if p in base then Some(base[p]) else None
      case InWorkingDir(n) => if n in workingDir then Some(workingDir[n]) else None
    }

    /** Writing a file replaces it, or creates it with its parent directories. */
    function Put(loc: Location, bytes: seq<Byte>): (r: FileStore)
      ensures r.Get(loc) == Some(bytes)
      ensures forall other :: other != loc ==> r.Get(other) == Get(other)
    {
      match loc
      case InBase(p) => this.(base := base[p := bytes])
      case InWorkingDir(n) => this.(workingDir := workingDir[n := bytes])
    }

    /** Deleting a file; nothing else changes. */
    function Remove(loc: Location): (r: FileStore)
      ensures r.Get(loc).None?
      ensures forall other :: other != loc ==> r.Get(other) == Get(other)
    {
      match loc
      case InBase(p) => this.(base := base - {p})
      case InWorkingDir(n) => this.(workingDir := workingDir - {n})
    }
  }

  /**
   * How the store decodes a record file's bytes into an object of a class:
   * the object, null (as `fromJson` answers for an empty document or the
   * literal `null`), or an exception.
   */
  type Decoder = (ClassDecl, seq<Byte>) -> Result<Option<ObjectState>, Exc>

  /**
   * `read(class, id)`: null for a null class or id and for a missing file;
   * otherwise whatever the decoder makes of the file: an object, null, or
   * an exception.
   */
  function ReadIn(store: FileStore, decode: Decoder, cls: Option<ClassDecl>, id: Option<string>): (r: Result<Option<ObjectState>, Exc>)
    ensures cls.None? || id.None? ==> r == Success(None)
    ensures cls.Some? && id.Some? && store.Get(RecordFile(cls.value, id.value)).None? ==> r == Success(None)
    ensures cls.Some? && id.Some? && store.Get(RecordFile(cls.value, id.value)).Some? ==>
      r == decode(cls.value, store.Get(RecordFile(cls.value, id.value)).value)
  {
    if cls.None? || id.None? then Success(None)
    else
      match store.Get(RecordFile(cls.value, id.value))
      case None => Success(None)
      case Some(bytes) => decode(cls.value, bytes)
  }

  /** Reading a record just written yields the decoding of what was written. */
  lemma ReadAfterPut(store: FileStore, decode: Decoder, cls: ClassDecl, id: string, bytes: seq<Byte>)
    ensures ReadIn(store.Put(RecordFile(cls, id), bytes), decode, Some(cls), Some(id)) == decode(cls, bytes)
  {
  }

  /** Reading a record just deleted yields null. */
  lemma ReadAfterRemove(store: FileStore, decode: Decoder, cls: ClassDecl, id: string)
    ensures ReadIn(store.Remove(RecordFile(cls, id)), decode, Some(cls), Some(id)) == Success(None)
  {
  }

  /** Writing one record leaves the reads of records in other files as they were. */
  lemma ReadOther(store: FileStore, decode: Decoder, loc: Location, bytes: seq<Byte>, cls: ClassDecl, id: string)
    requires RecordFile(cls, id) != loc
    ensures ReadIn(store.Put(loc, bytes), decode, Some(cls), Some(id)) == ReadIn(store, decode, Some(cls), Some(id))
    ensures ReadIn(store.Remove(loc), decode, Some(cls), Some(id)) == ReadIn(store, decode, Some(cls), Some(id))
  {
  }

  /* ---------------------------------------------------------------- */
  /* The @Id field                                                     */
  /* ---------------------------------------------------------------- */

  /** What is wrong with an `@Id` field, checked in this order, if anything. */
  function IdFieldProblem(f: FieldDecl): Option<Exc>
  {
    if !f.isString then Some(IllegalArgument("@Id field must be a String"))
    else if f.isStatic then Some(IllegalArgument("@Id field must not be static"))
    else if f.isFinal then Some(IllegalArgument("@Id field must not be final"))
    else None
  }

  /**
   * The field scan of `getIdField` from field `k` on, with `found` the `@Id`
   * field accepted so far: each `@Id` field is checked as it comes, a second
   * one is rejected, and a class without one is rejected at the end.
   */
  function ScanIdFields(cls: ClassDecl, k: nat, found: Option<FieldDecl>): Result<FieldDecl, Exc>
    requires k <= |cls.fields|
    decreases |cls.fields| - k
  {
    if k == |cls.fields| then
      if found.None? then Failure(IllegalArgument(cls.typeName + " does not declare an @Id-String field"))
      else Success(found.value)
    else
      var f := cls.fields[k];
      if !f.isId then ScanIdFields(cls, k + 1, found)
      else if IdFieldProblem(f).Some? then Failure(IdFieldProblem(f).value)
      else if found.Some? then Failure(IllegalArgument("Only one @Id field allowed"))
      else ScanIdFields(cls, k + 1, Some(f))
  }

  /** What `getIdField` answers for a class it has not cached. */
  function IdFieldOf(cls: ClassDecl): Result<FieldDecl, Exc>
  {
    ScanIdFields(cls, 0, None)
  }

  /** The fields carrying `@Id`, in declaration order. */
  function IdAnnotated(fields: seq<FieldDecl>): (r: seq<FieldDecl>)
    ensures forall f :: f in r ==> f.isId
  {
    if fields == [] then []
    else (if fields[0].isId then [fields[0]] else []) + IdAnnotated(fields[1..])
  }

  /** A usable id field: a non-static, non-final String. */
  predicate ValidIdField(f: FieldDecl)
  {
    f.isString && !f.isStatic && !f.isFinal
  }

  lemma {:induction false} ScanIdFieldsIff(cls: ClassDecl, k: nat, found: Option<FieldDecl>)
    requires k <= |cls.fields|
    ensures var rest := IdAnnotated(cls.fields[k..]);
      && (found.Some? ==> (ScanIdFields(cls, k, found).Success? <==> rest == []))
      && (found.None? ==> (ScanIdFields(cls, k, found).Success? <==> |rest| == 1 && ValidIdField(rest[0])))
      && (ScanIdFields(cls, k, found).Success? ==>
            ScanIdFields(cls, k, found).value == if found.Some? then found.value else rest[0])
    decreases |cls.fields| - k
  {
    if k < |cls.fields| {
      var f := cls.fields[k];
      assert cls.fields[k..][1..] == cls.fields[k + 1..];
      assert IdAnnotated(cls.fields[k..]) == (if f.isId then [f] else []) + IdAnnotated(cls.fields[k + 1..]);
      if f.isId && IdFieldProblem(f).None? && found.None? {
        ScanIdFieldsIff(cls, k + 1, Some(f));
      } else if !f.isId {
        ScanIdFieldsIff(cls, k + 1, found);
      }
    }
  }

  /**
   * `getIdField` succeeds exactly when the class declares one `@Id` field and
   * it is a non-static, non-final String; that field is the answer.
   */
  lemma IdFieldOfIff(cls: ClassDecl)
    ensures IdFieldOf(cls).Success? <==> |IdAnnotated(cls.fields)| == 1 && ValidIdField(IdAnnotated(cls.fields)[0])
    ensures IdFieldOf(cls).Success? ==> IdFieldOf(cls).value == IdAnnotated(cls.fields)[0]
    ensures IdFieldOf(cls).Failure? ==> IdFieldOf(cls).error.IllegalArgument?
  {
    ScanIdFieldsIff(cls, 0, None);
    assert cls.fields[0..] == cls.fields;
    IdFieldScanFails(cls, 0, None);
  }

  lemma {:induction false} IdFieldScanFails(cls: ClassDecl, k: nat, found: Option<FieldDecl>)
    requires k <= |cls.fields|
    ensures ScanIdFields(cls, k, found).Failure? ==> ScanIdFields(cls, k, found).error.IllegalArgument?
    decreases |cls.fields| - k
  {
    if k < |cls.fields| {
      var f := cls.fields[k];
      if !f.isId {
        IdFieldScanFails(cls, k + 1, found);
      } else if IdFieldProblem(f).None? && found.None? {
        IdFieldScanFails(cls, k + 1, Some(f));
      }
    }
  }

  /** The `idFields` cache after `getIdField(cls)`: successful answers are added, failures are not. */
  function Cached(cache: map<ClassDecl, FieldDecl>, cls: ClassDecl): map<ClassDecl, FieldDecl>
  {
    if cls in cache || IdFieldOf(cls).Failure? then cache else cache[cls := IdFieldOf(cls).value]
  }

  /** The id provider: the id for an object, possibly null. */
  type IdProvider = ObjectState -> Option<string>

  /** The type name `setIdProvider` names in its message. */
  const IdProviderTypeName: string := "de.greyshine.jsonpersister.JsonPersister$IIdProvider"

  /* ---------------------------------------------------------------- */
  /* The store                                                         */
  /* ---------------------------------------------------------------- */

  /** `JsonPersister`: the files it manages and its `@Id` field cache. */
  class JsonPersister {
    var store: FileStore
    var idFields: map<ClassDecl, FieldDecl>
    var idProvider: IdProvider
    /** `gson.toJson` followed by UTF-8 encoding, as written to a record file. */
    const encode: ObjectState -> seq<Byte>
    /** `gson.fromJson` of a record file's bytes. */
    const decode: Decoder
    /** `toString()` of an object, used in messages. */
    const describe: ObjectState -> string

    /** Every cached id field is what the field scan finds for its class. */
    ghost predicate Valid()
      reads this
    {
      forall c :: c in idFields ==> IdFieldOf(c) == Success(idFields[c])
    }

    constructor (store: FileStore, encode: ObjectState -> seq<Byte>, decode: Decoder,
                 describe: ObjectState -> string, idProvider: IdProvider)
      ensures Valid()
      ensures this.store == store && idFields == map[] && this.idProvider == idProvider
      ensures this.encode == encode && this.decode == decode && this.describe == describe
    {
      this.store := store;
      this.encode := encode;
      this.decode := decode;
      this.describe := describe;
      this.idProvider := idProvider;
      idFields := map[];
    }

    /** `setIdProvider`: a null provider is refused. */
    method SetIdProvider(provider: Option<IdProvider>) returns (thrown: Option<Exc>)
      modifies this
      ensures provider.None? ==> thrown == Some(IllegalArgument(IdProviderTypeName + " must not be null")) && unchanged(this)
      ensures provider.Some? ==> thrown.None? && idProvider == provider.value
      ensures store == old(store) && idFields == old(idFields)
    {
      if provider.None? {
        return Some(IllegalArgument(IdProviderTypeName + " must not be null"));
      }
      idProvider := provider.value;
      thrown := None;
    }

    /**
     * `getIdField`: a cached field is returned as is; otherwise the declared
     * fields are scanned and a successful answer is cached.
     */
    method GetIdField(cls: ClassDecl) returns (r: Result<FieldDecl, Exc>)
      requires Valid()
      modifies this
      ensures Valid()
      ensures r == IdFieldOf(cls)
      ensures cls in old(idFields) ==> r == Success(old(idFields)[cls])
      ensures idFields == Cached(old(idFields), cls)
      ensures store == old(store) && idProvider == old(idProvider)
    {
      if cls in idFields {
        return Success(idFields[cls]);
      }
      var found: Option<FieldDecl> := None;
      var k := 0;
      while k < |cls.fields|
        invariant 0 <= k <= |cls.fields|
        invariant ScanIdFields(cls, k, found) == IdFieldOf(cls)
      {
        var f := cls.fields[k];
        if f.isId {
          if !f.isString {
            return Failure(IllegalArgument("@Id field must be a String"));
          }
          if f.isStatic {
            return Failure(IllegalArgument("@Id field must not be static"));
          }
          if f.isFinal {
            return Failure(IllegalArgument("@Id field must not be final"));
          }
          if found.Some? {
            return Failure(IllegalArgument("Only one @Id field allowed"));
          }
          found := Some(f);
        }
        k := k + 1;
      }
      if found.None? {
        return Failure(IllegalArgument(cls.typeName + " does not declare an @Id-String field"));
      }
      idFields := idFields[cls := found.value];
      r := Success(found.value);
    }

    /**
     * `upsert`: the object's id is its id field's value, or, when that is
     * blank, the provider's id, which is written back into the object; the
     * encoded object then replaces the record file.
     */
    method Upsert(obj: Entity?) returns (r: Result<string, Exc>)
      requires Valid()
      modifies this, obj
      ensures Valid()
      ensures idProvider == old(idProvider)
      ensures obj == null ==> r == Failure(IllegalArgument("No object specified.")) && unchanged(this)
      ensures obj != null ==> idFields == Cached(old(idFields), obj.cls)
      ensures obj != null && IdFieldOf(obj.cls).Failure? ==>
        r == Failure(IdFieldOf(obj.cls).error) && store == old(store) && unchanged(obj)
      ensures obj != null && IdFieldOf(obj.cls).Success? ==>
        var f := IdFieldOf(obj.cls).value;
        var given := FieldValue(old(obj.values), f.name);
        var provided := old(idProvider)(old(obj.State()));
        && (!IsBlank(given) ==> r == Success(given.value) && obj.values == old(obj.values))
        && (IsBlank(given) && provided.None? ==>
              && r == Failure(IllegalState("Id for object is null [object=" + describe(old(obj.State())) + "]"))
              && store == old(store) && obj.values == old(obj.values))
        && (IsBlank(given) && provided.Some? ==>
              r == Success(provided.value) && obj.values == old(obj.values)[f.name := provided.value])
      ensures r.Success? ==>
        && obj != null
        && FieldValue(obj.values, IdFieldOf(obj.cls).value.name) == Some(r.value)
        && store == old(store).Put(RecordFile(obj.cls, r.value), encode(obj.State()))
    {
      if obj == null {
        return Failure(IllegalArgument("No object specified."));
      }
      var idField := GetIdField(obj.cls);
      if idField.Failure? {
        return Failure(idField.error);
      }
      var f := idField.value;
      var id := FieldValue(obj.values, f.name);
      if IsBlank(id) {
        id := idProvider(obj.State());
        if id.None? {
          return Failure(IllegalState("Id for object is null [object=" + describe(obj.State()) + "]"));
        }
        obj.values := obj.values[f.name := id.value];
      }
      var file := RecordFile(obj.cls, id.value);
      var json := encode(obj.State());
      store := store.Put(file, json);
      r := Success(id.value);
    }

    /** `read(class, id)`. */
    method Read(cls: Option<ClassDecl>, id: Option<string>) returns (r: Result<Option<ObjectState>, Exc>)
      ensures r == ReadIn(store, decode, cls, id)
    {
      if cls.None? || id.None? {
        return Success(None);
      }
      var file := RecordFile(cls.value, id.value);
      var bytes := store.Get(file);
      if bytes.None? {
        return Success(None);
      }
      r := decode(cls.value, bytes.value);
    }

    /**
     * `delete(class, id)`: true for a null class or id; false when the record
     * file does not exist; otherwise the file is removed and true returned.
     */
    method Delete(cls: Option<ClassDecl>, id: Option<string>) returns (deleted: bool)
      modifies this
      ensures idFields == old(idFields) && idProvider == old(idProvider)
      ensures cls.None? || id.None? ==> deleted && store == old(store)
      ensures cls.Some? && id.Some? ==>
        var file := RecordFile(cls.value, id.value);
        && deleted == old(store).Get(file).Some?
        && store == (if deleted then old(store).Remove(file) else old(store))
    {
      if cls.None? || id.None? {
        return true;
      }
      var file := RecordFile(cls.value, id.value);
      if store.Get(file).None? {
        return false;
      }
      store := store.Remove(file);
      deleted := store.Get(file).None?;
    }

    /**
     * `delete(object)`: false for a null object or a null id; otherwise
     * `delete(class, id)` with the object's id, unless the class has no
     * usable id field.
     */
    method DeleteObject(obj: Entity?) returns (r: Result<bool, Exc>)
      requires Valid()
      modifies this
      ensures Valid()
      ensures idProvider == old(idProvider)
      ensures obj == null ==> r == Success(false) && unchanged(this)
      ensures obj != null ==> idFields == Cached(old(idFields), obj.cls)
      ensures obj != null && IdFieldOf(obj.cls).Failure? ==> r == Failure(IdFieldOf(obj.cls).error) && store == old(store)
      ensures obj != null && IdFieldOf(obj.cls).Success? ==>
        var id := FieldValue(obj.values, IdFieldOf(obj.cls).value.name);
        && (id.None? ==> r == Success(false) && store == old(store))
        && (id.Some? ==>
              var file := RecordFile(obj.cls, id.value);
              && r == Success(old(store).Get(file).Some?)
              && store == (if old(store).Get(file).Some? then old(store).Remove(file) else old(store)))
    {
      if obj == null {
        return Success(false);
      }
      var idField := GetIdField(obj.cls);
      if idField.Failure? {
        return Failure(idField.error);
      }
      var id := FieldValue(obj.values, idField.value.name);
      if id.None? {
        return Success(false);
      }
      var deleted := Delete(Some(obj.cls), id);
      r := Success(deleted);
    }

    /**
     * `isExisting(class, id)`: a null class is refused, a blank id does not
     * exist, otherwise whether the record file exists.
     */
    function IsExisting(cls: Option<ClassDecl>, id: Option<string>): (r: Result<bool, Exc>)
      reads this
      ensures cls.None? <==> r.Failure?
      ensures r.Failure? ==> r.error == IllegalArgument("No class specified.")
      ensures r == Success(true) <==> cls.Some? && !IsBlank(id) && store.Get(RecordFile(cls.value, id.value)).Some?
    {
      if cls.None? then Failure(IllegalArgument("No class specified."))
      else if IsBlank(id) then Success(false)
      else Success(store.Get(RecordFile(cls.value, id.value)).Some?)
    }

    /**
     * `list(class, decision)` over the base directory as listed by `view`:
     * each JSON file's record is read and handed to the decision; the first
     * exception is re-thrown as unchecked once the walk is over.
     */
    method List<D>(view: Node, cls: Option<ClassDecl>, decision: Option<Decision<D>>, d0: D) returns (d: D, thrown: Option<Exc>)
      ensures cls.None? ==> d == d0 && thrown.None?
      ensures cls.Some? && TypeDir(view, cls.value.typeName).None? ==> d == d0 && thrown == Some(NullPointer(""))
      ensures cls.Some? && TypeDir(view, cls.value.typeName).Some? ==>
        var st := ListRun(store, decode, cls.value, decision, d0, ObjectFiles(TypeDir(view, cls.value.typeName).value));
        && d == st.caller
        && thrown == (if st.error.Some? then Some(ToRuntime(st.error.value)) else None)
    {
      if cls.None? {
        return d0, None;
      }
      var step := ListStepper(store, decode, cls.value, decision);
      var st, npe := TraversObjects(view, cls, Some(step), ListState(d0, false, None));
      d := st.caller;
      if npe.Some? {
        return d, npe;
      }
      thrown := if st.error.Some? then Some(ToRuntime(st.error.value)) else None;
    }

    /**
     * `getList(class, decision)`: the records whose decision is true, in
     * walk order; a null decision keeps every record.
     */
    method GetList(view: Node, cls: Option<ClassDecl>, accept: Option<Accept>) returns (r: Result<Option<seq<Option<ObjectState>>>, Exc>)
      ensures cls.None? ==> r == Success(None)
      ensures cls.Some? && TypeDir(view, cls.value.typeName).None? ==> r == Failure(NullPointer(""))
      ensures cls.Some? && TypeDir(view, cls.value.typeName).Some? ==>
        var kept := KeptItems(store, decode, cls.value, accept, ObjectFiles(TypeDir(view, cls.value.typeName).value));
        && (kept.Success? ==> r == Success(Some(kept.value)))
        && (kept.Failure? ==> r == Failure(kept.error))
    {
      if cls.None? {
        return Success(None);
      }
      var items, thrown := List(view, cls, Some(GetListDecision(accept)), []);
      if TypeDir(view, cls.value.typeName).Some? {
        GetListFold(store, decode, cls.value, accept, ObjectFiles(TypeDir(view, cls.value.typeName).value));
      }
      if thrown.Some? {
        return Failure(thrown.value);
      }
      r := Success(Some(items));
    }
  }

  /**
   * `read` finds something (an object or an exception) only where
   * `isExisting` answers true, and where `isExisting` answers false `read`
   * is null. The converse fails: an existing record may read as null.
   */
  lemma ReadImpliesExisting(p: JsonPersister, cls: ClassDecl, id: string)
    requires !IsBlank(Some(id))
    ensures ReadIn(p.store, p.decode, Some(cls), Some(id)) != Success(None) ==> p.IsExisting(Some(cls), Some(id)) == Success(true)
    ensures p.IsExisting(Some(cls), Some(id)) == Success(false) ==> ReadIn(p.store, p.decode, Some(cls), Some(id)) == Success(None)
  {
  }

  /**
   * A record file whose bytes the decoder maps to null (an empty file, as a
   * restore of a zero-length entry leaves) exists, yet reads as null.
   */
  lemma ExistingButNull(p: JsonPersister, cls: ClassDecl, id: string)
    requires !IsBlank(Some(id)) && p.store.Get(RecordFile(cls, id)).Some?
    requires p.decode(cls, p.store.Get(RecordFile(cls, id)).value) == Success(None)
    ensures p.IsExisting(Some(cls), Some(id)) == Success(true)
    ensures ReadIn(p.store, p.decode, Some(cls), Some(id)) == Success(None)
  {
  }

  /* ---------------------------------------------------------------- */
  /* Enumerating a type's records                                      */
  /* ---------------------------------------------------------------- */

  /**
   * What `new File(base, typeName).listFiles()` yields: the entries of the
   * base directory's first entry of that name if it is a directory, and null
   * otherwise.
   */
  function TypeDir(view: Node, typeName: string): (r: Option<seq<Node>>)
    ensures r.Some? ==> view.Dir? && Dir(typeName, r.value) in view.children
  {
    if view.File? then None else EntryNamed(view.children, typeName)
  }

  function EntryNamed(entries: seq<Node>, name: string): (r: Option<seq<Node>>)
    ensures r.Some? ==> Dir(name, r.value) in entries
  {
    if entries == [] then None
    else if entries[0].name == name then (if entries[0].Dir? then Some(entries[0].children) else None)
    else EntryNamed(entries[1..], name)
  }

  /** A regular file whose lower-cased name ends in `.json`. */
  predicate IsJsonFile(n: Node)
  {
    n.File? && EndsWith(ToLowerCase(n.name), JsonSuffix)
  }

  /** The JSON files among a shard directory's entries, in listing order. */
  function JsonFiles(entries: seq<Node>): (r: seq<Node>)
    ensures forall n :: n in r <==> n in entries && IsJsonFile(n)
  {
    if entries == [] then []
    else JsonFiles(entries[..|entries| - 1]) + (if IsJsonFile(entries[|entries| - 1]) then [entries[|entries| - 1]] else [])
  }

  /**
   * The JSON files of all the shard directories of a type directory, in
   * listing order: a file is handed over exactly when it is a JSON file of
   * one of the type directory's sub-directories.
   */
  function ObjectFiles(entries: seq<Node>): (r: seq<Node>)
    ensures forall n :: n in r ==> IsJsonFile(n)
    ensures forall n :: n in r <==> exists d :: d in entries && d.Dir? && n in JsonFiles(d.children)
  {
    if entries == [] then []
    else
      var init, last := entries[..|entries| - 1], entries[|entries| - 1];
      assert entries == init + [last];
      ObjectFiles(init) + (if last.Dir? then JsonFiles(last.children) else [])
  }

  /** A consumer applied to the files in order. */
  function Fold<S>(f: (S, Node) -> S, s0: S, files: seq<Node>): S
  {
    if files == [] then s0 else f(Fold(f, s0, files[..|files| - 1]), files[|files| - 1])
  }

  /**
   * `Storage.traversObjects(class, consumer)`: the consumer sees every JSON
   * file in every shard directory of the type's directory; a missing type
   * directory fails with a NullPointerException.
   */
  method TraversObjects<S>(view: Node, cls: Option<ClassDecl>, consumer: Option<(S, Node) -> S>, s0: S) returns (s: S, thrown: Option<Exc>)
    ensures cls.None? || consumer.None? ==> s == s0 && thrown.None?
    ensures cls.Some? && consumer.Some? && TypeDir(view, cls.value.typeName).None? ==> s == s0 && thrown == Some(NullPointer(""))
    ensures cls.Some? && consumer.Some? && TypeDir(view, cls.value.typeName).Some? ==>
      thrown.None? && s == Fold(consumer.value, s0, ObjectFiles(TypeDir(view, cls.value.typeName).value))
  {
    if cls.None? || consumer.None? {
      return s0, None;
    }
    var listing := TypeDir(view, cls.value.typeName);
    if listing.None? {
      return s0, Some(NullPointer(""));
    }
    var entries := listing.value;
    s := s0;
    var i := 0;
    while i < |entries|
      invariant 0 <= i <= |entries|
      invariant s == Fold(consumer.value, s0, ObjectFiles(entries[..i]))
    {
      assert entries[..i + 1][..i] == entries[..i];
      if entries[i].Dir? {
        assert ObjectFiles(entries[..i + 1]) == ObjectFiles(entries[..i]) + JsonFiles(entries[i].children);
        s := ConsumeJsonFiles(consumer.value, entries[i].children, s);
        FoldAppend(consumer.value, s0, ObjectFiles(entries[..i]), JsonFiles(entries[i].children));
      } else {
        assert ObjectFiles(entries[..i + 1]) == ObjectFiles(entries[..i]);
      }
      i := i + 1;
    }
    assert entries[..i] == entries;
    thrown := None;
  }

  /** The inner `forEach` of `traversObjects` over one shard directory. */
  method ConsumeJsonFiles<S>(consumer: (S, Node) -> S, entries: seq<Node>, s0: S) returns (s: S)
    ensures s == Fold(consumer, s0, JsonFiles(entries))
  {
    s := s0;
    var j := 0;
    while j < |entries|
      invariant 0 <= j <= |entries|
      invariant s == Fold(consumer, s0, JsonFiles(entries[..j]))
    {
      JsonFilesSnoc(entries, j);
      if IsJsonFile(entries[j]) {
        FoldSnoc(consumer, s0, JsonFiles(entries[..j]), entries[j]);
        s := consumer(s, entries[j]);
      }
      j := j + 1;
    }
    assert entries[..j] == entries;
  }

  lemma JsonFilesSnoc(entries: seq<Node>, j: nat)
    requires j < |entries|
    ensures IsJsonFile(entries[j]) ==> JsonFiles(entries[..j + 1]) == JsonFiles(entries[..j]) + [entries[j]]
    ensures !IsJsonFile(entries[j]) ==> JsonFiles(entries[..j + 1]) == JsonFiles(entries[..j])
  {
    assert entries[..j + 1][..j] == entries[..j];
    assert JsonFiles(entries[..j]) + [] == JsonFiles(entries[..j]);
  }

  lemma FoldSnoc<S>(f: (S, Node) -> S, s0: S, a: seq<Node>, x: Node)
    ensures Fold(f, s0, a + [x]) == f(Fold(f, s0, a), x)
  {
    assert (a + [x])[..|a|] == a;
  }

  lemma {:induction false} FoldAppend<S>(f: (S, Node) -> S, s0: S, a: seq<Node>, b: seq<Node>)
    ensures Fold(f, s0, a + b) == Fold(f, Fold(f, s0, a), b)
    decreases |b|
  {
    if b == [] {
      assert a + b == a;
    } else {
      assert (a + b)[..|a + b| - 1] == a + b[..|b| - 1];
      FoldAppend(f, s0, a, b[..|b| - 1]);
    }
  }

  /** The state of `list`'s consumer: the caller's state, the quit flag, the caught exception. */
  datatype ListState<D> = ListState(caller: D, quit: bool, error: Option<Exc>)

  /** What a decision did: the caller's new state and its answer (true, false, null, or an exception). */
  datatype Decided<D> = Decided(state: D, answer: Result<Option<bool>, Exc>)

  /** `Function<T, Boolean>` with side effects on the caller's state `D`. */
  type Decision<!D> = (D, Option<ObjectState>) -> Decided<D>

  /**
   * `list`'s consumer, for one file: nothing once quit or failed; names without
   * `.json` after the first character are skipped; otherwise the record is read
   * and given to the decision, where null quits and an exception is kept.
   */
  function ListStep<D>(store: FileStore, decode: Decoder, cls: ClassDecl, decision: Option<Decision<D>>, st: ListState<D>, file: Node): ListState<D>
  {
    if st.quit || st.error.Some? then st
    else
      var idx := LastIndexOf(file.name, JsonSuffix);
      if idx < 1 then st
      else
        var read := ReadIn(store, decode, Some(cls), Some(file.name[..idx]));
        if read.Failure? then st.(error := Some(read.error))
        else if decision.None? then st
        else
          var decided := decision.value(st.caller, read.value);
          if decided.answer.Failure? then ListState(decided.state, false, Some(decided.answer.error))
          else if decided.answer.value.None? then ListState(decided.state, true, None)
          else st.(caller := decided.state)
  }

  function ListStepper<D>(store: FileStore, decode: Decoder, cls: ClassDecl, decision: Option<Decision<D>>): (ListState<D>, Node) -> ListState<D>
  {
    (st, file) => ListStep(store, decode, cls, decision, st, file)
  }

  /** `list`'s consumer run over the files from a fresh state. */
  function ListRun<D>(store: FileStore, decode: Decoder, cls: ClassDecl, decision: Option<Decision<D>>, d0: D, files: seq<Node>): ListState<D>
  {
    Fold(ListStepper(store, decode, cls, decision), ListState(d0, false, None), files)
  }

  /** Once the consumer has quit or caught an exception, no later file changes anything. */
  lemma {:induction false} ListStopsOnceSet<D>(store: FileStore, decode: Decoder, cls: ClassDecl, decision: Option<Decision<D>>, st: ListState<D>, files: seq<Node>)
    requires st.quit || st.error.Some?
    ensures Fold(ListStepper(store, decode, cls, decision), st, files) == st
    decreases |files|
  {
    if files != [] {
      ListStopsOnceSet(store, decode, cls, decision, st, files[..|files| - 1]);
    }
  }

  /** A file whose name has no `.json` after its first character (such as `X.JSON`) is skipped. */
  lemma UpperCaseSuffixSkipped<D>(store: FileStore, decode: Decoder, cls: ClassDecl, decision: Option<Decision<D>>, st: ListState<D>, length: nat, content: seq<Byte>)
    ensures IsJsonFile(File("X.JSON", length, content))
    ensures ListStep(store, decode, cls, decision, st, File("X.JSON", length, content)) == st
  {
    assert ToLowerCase("X.JSON") == "x.json";
    assert "X.JSON"[1..6][1] != JsonSuffix[1];
    assert "X.JSON"[0..5][0] != JsonSuffix[0];
  }

  /** `getList`'s decision: true, false, null or an exception from the caller's predicate. */
  type Accept = Option<ObjectState> -> Result<Option<bool>, Exc>

  /**
   * The decision `getList` hands to `list`: a null predicate keeps everything,
   * a null answer fails on unboxing, an exception is re-thrown unchecked, and a
   * kept record is appended.
   */
  function GetListDecision(accept: Option<Accept>): Decision<seq<Option<ObjectState>>>
  {
    (kept: seq<Option<ObjectState>>, obj: Option<ObjectState>) =>
      var answer := if accept.None? then Success(Some(true)) else accept.value(obj);
      if answer.Failure? then Decided(kept, Failure(ToRuntime(answer.error)))
      else if answer.value.None? then Decided(kept, Failure(NullPointer("")))
      else Decided(if answer.value.value then kept + [obj] else kept, Success(answer.value))
  }

  /**
   * The records `getList` returns for the files, stated directly: each file
   * with a `.json` after its first character is read, and kept when the
   * predicate says true; the first failure (reading, a null answer, an
   * exception from the predicate) is the outcome.
   */
  function KeptItems(store: FileStore, decode: Decoder, cls: ClassDecl, accept: Option<Accept>, files: seq<Node>): Result<seq<Option<ObjectState>>, Exc>
  {
    if files == [] then Success([])
    else
      var before := KeptItems(store, decode, cls, accept, files[..|files| - 1]);
      var file := files[|files| - 1];
      var idx := LastIndexOf(file.name, JsonSuffix);
      if before.Failure? || idx < 1 then before
      else
        var read := ReadIn(store, decode, Some(cls), Some(file.name[..idx]));
        if read.Failure? then Failure(ToRuntime(read.error))
        else
          var answer := if accept.None? then Success(Some(true)) else accept.value(read.value);
          if answer.Failure? then Failure(ToRuntime(answer.error))
          else if answer.value.None? then Failure(NullPointer(""))
          else Success(before.value + if answer.value.value then [read.value] else [])
  }

  /** `list` run with `getList`'s decision computes `KeptItems`, and never quits. */
  lemma {:induction false} GetListFold(store: FileStore, decode: Decoder, cls: ClassDecl, accept: Option<Accept>, files: seq<Node>)
    ensures var st := ListRun(store, decode, cls, Some(GetListDecision(accept)), [], files);
      var kept := KeptItems(store, decode, cls, accept, files);
      && !st.quit
      && (kept.Success? ==> st.error.None? && st.caller == kept.value)
      && (kept.Failure? ==> st.error.Some? && ToRuntime(st.error.value) == kept.error)
    decreases |files|
  {
    if files != [] {
      GetListFold(store, decode, cls, accept, files[..|files| - 1]);
    }
  }
}
