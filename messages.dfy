/** The messages the use cases and middlewares throw, word for word. */
module Messages {
  // reviews
  const UnidentifiedUser := "Usuário não identificado."
  const RatingOutOfRange := "Rating deve ser entre 1 e 5."
  const CommentTooLong := "Comentário deve ter no máximo 500 caracteres."
  const AlreadyReviewed := "Você já avaliou este jogo."
  const NothingToUpdate := "Nenhum dado enviado para atualizar."
  const CommentEmpty := "Comentário não pode ser vazio."
  const ReviewNotFound := "Review não encontrada."
  const CannotEditReview := "Você não pode editar esta review."
  const CannotDeleteReview := "Você não pode deletar esta review."

  // games
  const GameNotFound := "Jogo não encontrado."
  const TitleRequired := "Título é obrigatório."
  const GenreRequired := "Gênero é obrigatório."
  const TitleTaken := "Já existe um jogo com esse título."
  const TitleEmpty := "Título não pode ser vazio."
  const GenreEmpty := "Gênero não pode ser vazio."

  // auth
  const NameRequired := "Nome é obrigatório."
  const EmailRequired := "E-mail é obrigatório."
  const EmailTaken := "E-mail já está em uso."
  const PasswordTooShort := "Senha deve ter ao menos 6 caracteres."
  const InvalidCredentials := "Credenciais inválidas."
  const RefreshTokenInvalid := "Refresh token inválido."
  const RefreshTokenExpired := "Refresh token expirado."
  const UserNotFound := "Usuário não encontrado."
  const TokenMissing := "Token não informado."
  const TokenMalformed := "Token mal formatado."
  const TokenRejected := "Token inválido ou expirado."
  const AdminOnly := "Acesso negado. Apenas administradores podem realizar esta ação."

  /** What `jwt.verify` throws; it is not an AppError, so its text never reaches a client. */
  const VerifyFailed := "jwt.verify failed"
}
