/** The responses the handlers send: a status code with a JSON body, or nothing at all
    (the login path whose exception is only logged). Message texts are the API's own. */
module Http {
  import opened Primitives
  import opened Users

  datatype Body =
    | Msg(msg: string)
    | MsgToken(msg: string, token: string)
    | UserBody(user: PublicUser)

  datatype Reply = Reply(status: nat, body: Body) | NoReply

  const AccessDenied := "Acesso negado"
  const InvalidToken := "Token invalido"
  const NameRequired := "O nome é obrigatório"
  const EmailRequired := "O email é obrigatório"
  const PasswordRequired := "A senha é obrigatória"
  const PasswordMismatch := "As senhas não conferem"
  const EmailExists := "O email ja existe"
  const UserCreated := "Usário criado com sucesso"
  const CreateFailed := "Erro ao criar usuário"
  const InvalidCredentials := "Email ou senha inválida"
  const LoginSucceeded := "Autenticado com sucesso"
  const UserNotFound := "Usário não encontrado"

  /** A 422 client error with a message: every validation and lookup failure. */
  function Unprocessable(msg: string): (r: Reply) {
    Reply(422, Msg(msg))
  }
}
