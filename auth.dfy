/**
  The login check: a stateless exact match against one fixed credential pair.
  A field that is missing from the request body is `None`.
 */
module Auth {
  import opened Wrappers

  const AcceptedUsername: string := "testuser"
  const AcceptedPassword: string := "testpass"

  /** The identity returned on success: the submitted user name and the fixed id 1. */
  datatype User = User(username: string, id: int)

  /** The JSON body and status code of the reply. */
  datatype LoginReply = LoginReply(status: int, success: bool, message: string, user: Option<User>)

  /** The one reply every rejected attempt gets, whatever was wrong with it. */
  const Rejection := LoginReply(401, false, "Invalid credentials", None)

  function Login(username: Option<string>, password: Option<string>): (r: LoginReply)
    ensures r.success <==> username == Some(AcceptedUsername) && password == Some(AcceptedPassword)
    ensures r.success ==> r == LoginReply(200, true, "Login successful", Some(User("testuser", 1)))
    ensures !r.success ==> r == Rejection
  {
    if username == Some(AcceptedUsername) && password == Some(AcceptedPassword) then
      LoginReply(200, true, "Login successful", Some(User(username.value, 1)))
    else
      Rejection
  }
}
