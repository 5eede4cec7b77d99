/** The authentication and admin gates of the HTTP router: parsing of the
    Authorization header, token validation through the authentication service
    (a parameter here), and the role check of the admin routes. */
module GinAuth {
  import opened Common

  // ---------------------------------------------------------------------------
  // Splitting on single spaces
  // ---------------------------------------------------------------------------

  /** Position of the first space. */
  function FirstSpace(s: string): (i: nat)
    requires ' ' in s
    ensures i < |s| && s[i] == ' ' && ' ' !in s[..i]
  {
    if s[0] == ' ' then 0
    else
      assert ' ' in s[1..] by {
        var k :| 0 <= k < |s| && s[k] == ' ';
        assert s[1..][k - 1] == ' ';
      }
      var j := FirstSpace(s[1..]);
      assert s[..j + 1] == [s[0]] + s[1..][..j];
      j + 1
  }

  /** The text cut at every single space, keeping empty pieces: one piece more
      than there are spaces, as the standard library's split does. */
  function Split(s: string): (parts: seq<string>)
    ensures |parts| >= 1
    ensures forall i :: 0 <= i < |parts| ==> ' ' !in parts[i]
    decreases |s|
  {
    if ' ' !in s then [s]
    else
      var i := FirstSpace(s);
      [s[..i]] + Split(s[i + 1..])
  }

  /** The pieces glued back with single spaces. */
  function Join(parts: seq<string>): string
    requires |parts| >= 1
  {
    if |parts| == 1 then parts[0] else parts[0] + " " + Join(parts[1..])
  }

  /** Splitting loses nothing: joining the pieces gives the text back. */
  lemma {:induction false} SplitThenJoin(s: string)
    ensures Join(Split(s)) == s
    decreases |s|
  {
    if ' ' in s {
      var i := FirstSpace(s);
      SplitThenJoin(s[i + 1..]);
      assert s == s[..i] + " " + s[i + 1..];
    }
  }

  /** Space-free pieces are recovered from their join. */
  lemma {:induction false} JoinThenSplit(parts: seq<string>)
    requires |parts| >= 1
    requires forall i :: 0 <= i < |parts| ==> ' ' !in parts[i]
    ensures Split(Join(parts)) == parts
    decreases |parts|
  {
    if |parts| > 1 {
      var s := Join(parts);
      var rest := Join(parts[1..]);
      assert s == parts[0] + " " + rest;
      assert s[|parts[0]|] == ' ';
      assert s[..|parts[0]|] == parts[0];
      var i := FirstSpace(s);
      assert i == |parts[0]|;
      assert s[i + 1..] == rest;
      JoinThenSplit(parts[1..]);
    }
  }

  // ---------------------------------------------------------------------------
  // The gates
  // ---------------------------------------------------------------------------

  /** What token validation yields: the user's id in text form and the role. */
  datatype Principal = Principal(id: string, role: string)

  /** The outcome of a gate: the request is answered with a status and an error
      and the chain stops, or it proceeds with the identity stored for later handlers. */
  datatype Outcome = Abort(status: int, reason: string) | Proceed(userId: string, role: string)

  const Unauthorized: int := 401
  const Forbidden: int := 403

  /** A well-formed header: "Bearer", one space, and a token with no space. */
  predicate BearerForm(header: string)
  {
    |header| >= 7 && header[..7] == "Bearer " && ' ' !in header[7..]
  }

  /** The header splits into exactly "Bearer" and a token precisely when it is in
      bearer form, and the token is then everything after the first space. */
  lemma BearerSplit(header: string)
    ensures (|Split(header)| == 2 && Split(header)[0] == "Bearer") <==> BearerForm(header)
    ensures BearerForm(header) ==> Split(header)[1] == header[7..]
  {
    if BearerForm(header) {
      JoinThenSplit(["Bearer", header[7..]]);
      assert Join(["Bearer", header[7..]]) == header;
    } else if |Split(header)| == 2 && Split(header)[0] == "Bearer" {
      SplitThenJoin(header);
    }
  }

  /** GinAuthMiddleware: a missing header, a header that does not split on spaces
      into exactly "Bearer" and one more piece, and a token the validator rejects
      each abort with 401; otherwise the validated user's id and role are stored
      and the chain proceeds. */
  function Authenticate(header: string, validate: string -> Option<Principal>): (o: Outcome)
    ensures header == "" ==> o == Abort(Unauthorized, "Missing authorization header")
    ensures o.Abort? ==> o.status == Unauthorized
    ensures header != "" && !BearerForm(header) ==> o == Abort(Unauthorized, "Invalid token format")
    ensures o.Proceed? <==> BearerForm(header) && validate(header[7..]).Some?
    ensures o.Proceed? ==> o == Proceed(validate(header[7..]).value.id, validate(header[7..]).value.role)
  {
    BearerSplit(header);
    if header == "" then Abort(Unauthorized, "Missing authorization header")
    else
      var parts := Split(header);
      if |parts| != 2 || parts[0] != "Bearer" then Abort(Unauthorized, "Invalid token format")
      else match validate(parts[1])
        case None => Abort(Unauthorized, "Invalid token")
        case Some(user) => Proceed(user.id, user.role)
  }

  /** The scheme is matched case-sensitively and a doubled space yields a third
      piece; both are refused as malformed before any token is validated. */
  lemma MalformedHeaders(validate: string -> Option<Principal>)
    ensures Authenticate("bearer abc", validate) == Abort(Unauthorized, "Invalid token format")
    ensures Authenticate("Bearer  abc", validate) == Abort(Unauthorized, "Invalid token format")
  {
    assert "bearer abc"[0] != "Bearer "[0];
    assert "Bearer  abc"[7..][0] == ' ';
  }

  /** GinAdminMiddleware: 403 when no role was stored and when the stored role is
      not exactly "admin"; otherwise the chain proceeds. */
  function AdminGate(role: Option<string>): (o: Option<Outcome>)
    ensures o.None? <==> role == Some("admin")
    ensures role.None? ==> o == Some(Abort(Forbidden, "User role not found"))
    ensures role.Some? && role.value != "admin" ==> o == Some(Abort(Forbidden, "Admin access required"))
  {
    match role
    case None => Some(Abort(Forbidden, "User role not found"))
    case Some(r) => if r != "admin" then Some(Abort(Forbidden, "Admin access required")) else None
  }

  /** Behind both gates, a request proceeds exactly when its header carries a
      token the validator accepts for a user whose role is "admin". */
  lemma AdminRoutes(header: string, validate: string -> Option<Principal>)
    ensures var a := Authenticate(header, validate);
      (a.Proceed? && AdminGate(Some(a.role)).None?) <==>
        BearerForm(header) && validate(header[7..]).Some? && validate(header[7..]).value.role == "admin"
  {
  }
}
