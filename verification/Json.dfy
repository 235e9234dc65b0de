/** JSON values, as the library used by the server presents them. */
module JsonValues {

  datatype Member = Member(name: string, value: Json)

  /** The members of an object are listed in iteration order. */
  datatype Json =
    | Null
    | Bool(b: bool)
    | Number(n: int)
    | Str(s: string)
    | Arr(items: seq<Json>)
    | Obj(members: seq<Member>)
  {
    /** The library counts null as an (empty) array and as an (empty) object. */
    predicate IsArray() {
      Null? || Arr?
    }

    predicate IsObject() {
      Null? || Obj?
    }

    function Items(): seq<Json>
      requires IsArray()
    {
      if Arr? then items else []
    }

    function Members(): seq<Member>
      requires IsObject()
    {
      if Obj? then members else []
    }
  }
}
