/** Runs of the catalog's event handlers from the seeded start-up state,
    each stated as the state it ends in. */
module Cenarios {
  import opened Wrappers
  import opened Livraria

  const DomCasmurro := Livro(1, "Dom Casmurro", "Romance", 1899)
  const OCortico := Livro(2, "O Cortiço", "Naturalismo", 1890)

  /** Page load: the two seed books get ids 1 and 2 and the counter is left at 3. */
  method Inicio() returns (c: Catalogo)
    ensures fresh(c) && c.Valid()
    ensures c.livros == [DomCasmurro, OCortico] && c.idGlobal == 3
    ensures !c.modoEdicaoAtivo && c.livroSelecionadoId == None && c.hiddenId == None
  {
    c := new Catalogo();
    c.Semear();
  }

  /** Submitting a new book after load appends it with id 3 and moves the counter to 4. */
  method CriarAposInicio() returns (c: Catalogo, msg: Option<Mensagem>)
    ensures c.livros == [DomCasmurro, OCortico, Livro(3, "Iracema", "Romance", 1865)]
    ensures c.idGlobal == 4 && msg == Some(LivroAdicionado)
  {
    c := Inicio();
    msg := c.Enviar("Iracema", "Romance", Some(1865));
  }

  /** An empty name is rejected: no book, no message, counter unchanged. */
  method NomeVazioRejeitado() returns (c: Catalogo, msg: Option<Mensagem>)
    ensures c.livros == [DomCasmurro, OCortico] && c.idGlobal == 3 && msg == None
  {
    c := Inicio();
    msg := c.Enviar("", "Romance", Some(1899));
  }

  /** Edit mode, click the first row, delete: only book 2 is left, the
      selection is gone and edit mode stays on. */
  method ExcluirPrimeiro() returns (c: Catalogo, msg: Option<Mensagem>)
    ensures c.livros == [OCortico] && c.idGlobal == 3
    ensures c.modoEdicaoAtivo && c.livroSelecionadoId == None
    ensures msg == Some(LivroExcluido)
  {
    c := Inicio();
    c.AlternarModoEdicao();
    c.ClicarLinha(0);
    msg := c.ExcluirSelecionado();
    assert FindIndex([DomCasmurro, OCortico], 1) == 0;
  }

  /** Load book 1 into the form, delete it, then submit the form: the stale
      target id matches no book, so nothing is created or changed and no
      message is shown, though the target field is cleared. */
  method EnvioComAlvoExcluido() returns (c: Catalogo, msg: Option<Mensagem>)
    ensures c.livros == [OCortico] && c.idGlobal == 3
    ensures msg == None && c.hiddenId == None
  {
    c := Inicio();
    c.AlternarModoEdicao();
    c.ClicarLinha(0);
    var carregado := c.EditarSelecionado();
    assert c.hiddenId == Some(1);
    var excluido := c.ExcluirSelecionado();
    assert FindIndex([DomCasmurro, OCortico], 1) == 0;
    assert FindIndex([OCortico], 1) == -1;
    msg := c.Enviar("X", "Y", Some(2000));
  }
}
