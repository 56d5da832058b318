/** The `MenuType` enum of the menu entity and its `#[repr(i32)]` encoding,
    which `Serialize_repr` writes and `Deserialize_repr` reads back. */
module SystemMenu {
  import opened Common

  /** The six kinds of menu entry, in declaration order. */
  datatype MenuType = Menu | Redirect | Link | Iframe | BtnAuth | Api

  /** The discriminant written for a menu type (`t as i32`). */
  function Code(t: MenuType): (c: i32)
    ensures 1 <= c <= 6
  {
    match t
    case Menu => 1
    case Redirect => 2
    case Link => 3
    case Iframe => 4
    case BtnAuth => 5
    case Api => 6
  }

  /** Reading a discriminant back; there is no variant outside 1..6, so those fail. */
  function FromCode(c: i32): (r: Option<MenuType>)
    ensures r.Some? <==> 1 <= c <= 6
    ensures r.Some? ==> Code(r.value) == c
  {
    if c == 1 then Some(Menu)
    else if c == 2 then Some(Redirect)
    else if c == 3 then Some(Link)
    else if c == 4 then Some(Iframe)
    else if c == 5 then Some(BtnAuth)
    else if c == 6 then Some(Api)
    else None
  }

  /** The fixed codes of the declaration. */
  lemma CodesAreFixed()
    ensures Code(Menu) == 1 && Code(Redirect) == 2 && Code(Link) == 3
    ensures Code(Iframe) == 4 && Code(BtnAuth) == 5 && Code(Api) == 6
  {
  }

  /** Decoding the code of any variant gives that variant back. */
  lemma RoundTrip(t: MenuType)
    ensures FromCode(Code(t)) == Some(t)
  {
  }

  /** Encoding any successfully decoded code gives that code back. */
  lemma RoundTripCode(c: i32)
    requires FromCode(c).Some?
    ensures Code(FromCode(c).value) == c
  {
  }

  /** Distinct variants have distinct codes. */
  lemma CodeInjective(s: MenuType, t: MenuType)
    ensures Code(s) == Code(t) <==> s == t
  {
    RoundTrip(s);
    RoundTrip(t);
  }
}
