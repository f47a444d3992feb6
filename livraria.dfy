/** The in-memory book catalog of js/script.js: the list of books, the id
    counter, the edit-mode flag, the selected book and the form's hidden
    target id, with one method per event handler. The DOM is abstracted
    away: rendering is not modelled, the message shown by `mostrarMensagem`
    is a returned value, and form fields arrive already trimmed and parsed. */
module Livraria {
  import opened Wrappers

  /** One catalog entry, as the object literals stored in `livros`. */
  datatype Livro = Livro(id: int, name: string, tipo: string, ano: int)

  /** The three success messages passed to `mostrarMensagem`. */
  datatype Mensagem = LivroAdicionado | LivroEditado | LivroExcluido

  /** Some book in `s` carries the id `id`. */
  predicate HasId(s: seq<Livro>, id: int)
  {
    exists i :: 0 <= i < |s| && s[i].id == id
  }

  /** No two books of `s` share an id. */
  ghost predicate IdsUnique(s: seq<Livro>)
  {
    forall i, j :: 0 <= i < j < |s| ==> s[i].id != s[j].id
  }

  /** Every id in `s` is positive and below `bound` (the next id to hand out). */
  ghost predicate IdsBelow(s: seq<Livro>, bound: int)
  {
    forall i :: 0 <= i < |s| ==> 0 < s[i].id < bound
  }

  /** `Array.prototype.findIndex` with the test `l.id === id`: the first
      index whose book has that id, or -1 when there is none. */
  function FindIndex(s: seq<Livro>, id: int): (r: int)
    ensures -1 <= r < |s|
    ensures r == -1 <==> !HasId(s, id)
    ensures r != -1 ==> s[r].id == id && forall j :: 0 <= j < r ==> s[j].id != id
  {
    if s == [] then -1
    else if s[0].id == id then 0
    else
      var k := FindIndex(s[1..], id);
      assert forall j :: 1 <= j < |s| ==> s[j] == s[1..][j - 1];
      if k == -1 then -1 else k + 1
  }

  /** `Array.prototype.find` with the test `l.id === id`. */
  function Find(s: seq<Livro>, id: int): (r: Option<Livro>)
    ensures r.Some? <==> HasId(s, id)
    ensures r.Some? ==> r.value in s && r.value.id == id
  {
    var k := FindIndex(s, id);
    if k == -1 then None else Some(s[k])
  }

  /** `livros.filter((l) => l.id !== id)`. */
  function RemoveId(s: seq<Livro>, id: int): (r: seq<Livro>)
    ensures |r| <= |s|
    ensures forall k :: 0 <= k < |r| ==> r[k].id != id
  {
    if s == [] then []
    else if s[0].id != id then [s[0]] + RemoveId(s[1..], id)
    else RemoveId(s[1..], id)
  }

  /** A book survives the filter exactly when it is in the list and does not
      carry the filtered id. */
  lemma {:induction false} RemoveIdMembers(s: seq<Livro>, id: int, x: Livro)
    ensures x in RemoveId(s, id) <==> x in s && x.id != id
  {
    if s != [] {
      RemoveIdMembers(s[1..], id, x);
      assert s == [s[0]] + s[1..];
    }
  }

  /** Filtering out an id nobody carries gives the list back unchanged. */
  lemma {:induction false} RemoveIdAbsent(s: seq<Livro>, id: int)
    requires !HasId(s, id)
    ensures RemoveId(s, id) == s
  {
    if s != [] {
      assert s[0].id != id;
      assert !HasId(s[1..], id) by {
        forall j | 0 <= j < |s[1..]| ensures s[1..][j].id != id {
          assert s[1..][j] == s[j + 1];
        }
      }
      RemoveIdAbsent(s[1..], id);
      assert [s[0]] + s[1..] == s;
    }
  }

  /** With unique ids, filtering out the id of the book at index `i` removes
      exactly that book and keeps the others in their order. */
  lemma {:induction false} RemoveIdAt(s: seq<Livro>, i: int)
    requires IdsUnique(s)
    requires 0 <= i < |s|
    ensures RemoveId(s, s[i].id) == s[..i] + s[i + 1..]
  {
    var id := s[i].id;
    var t := s[1..];
    assert forall j | 0 <= j < |t| :: t[j] == s[j + 1];
    if i == 0 {
      RemoveIdAbsent(t, id);
      assert s[..0] + s[1..] == t;
    } else {
      assert IdsUnique(t);
      assert t[i - 1] == s[i];
      RemoveIdAt(t, i - 1);
      calc {
        RemoveId(s, id);
        [s[0]] + RemoveId(t, id);
        [s[0]] + (t[..i - 1] + t[i..]);
        { assert t[..i - 1] == s[1..i] && t[i..] == s[i + 1..]; }
        [s[0]] + (s[1..i] + s[i + 1..]);
        { assert [s[0]] + s[1..i] == s[..i]; }
        s[..i] + s[i + 1..];
      }
    }
  }

  /** Filtering keeps the ids of the list unique and below the counter. */
  lemma RemoveIdKeepsIds(s: seq<Livro>, id: int, bound: int)
    requires IdsUnique(s) && IdsBelow(s, bound)
    ensures IdsUnique(RemoveId(s, id)) && IdsBelow(RemoveId(s, id), bound)
  {
    var k := FindIndex(s, id);
    if k == -1 {
      RemoveIdAbsent(s, id);
    } else {
      RemoveIdAt(s, k);
      var t := s[..k] + s[k + 1..];
      assert forall a | 0 <= a < |t| :: t[a] == s[if a < k then a else a + 1];
    }
  }

  /** The `if (!name || !tipo || !ano) return;` gate of the submit handler:
      an empty trimmed name or tipo, or a year that is `NaN` or 0, rejects. */
  predicate EntradaValida(name: string, tipo: string, ano: Option<int>)
  {
    name != "" && tipo != "" && ano.Some? && ano.value != 0
  }

  /** JavaScript truthiness of `parseInt(hiddenId.value)`: `NaN` and 0 are falsy. */
  predicate AlvoDefinido(alvo: Option<int>)
  {
    alvo.Some? && alvo.value != 0
  }

  /** The module-level state of the script. */
  class Catalogo {
    var livros: seq<Livro>
    var idGlobal: int
    var modoEdicaoAtivo: bool
    var livroSelecionadoId: Option<int>
    /** The hidden form field naming the book being edited; `None` is ''. */
    var hiddenId: Option<int>

    /** The counter is positive; ids are unique, positive and below it; a selection exists
        only in edit mode and always names a book of the list. */
    ghost predicate Valid()
      reads this
    {
      0 < idGlobal && IdsUnique(livros) && IdsBelow(livros, idGlobal) &&
      (livroSelecionadoId.Some? ==> modoEdicaoAtivo && HasId(livros, livroSelecionadoId.value))
    }

    /** The declarations at the top of the script, before seeding. The
        hidden target field is taken to start empty, as the page's input is
        not part of this model. */
    constructor ()
      ensures Valid()
      ensures livros == [] && idGlobal == 1
      ensures !modoEdicaoAtivo && livroSelecionadoId == None && hiddenId == None
    {
      livros := [];
      idGlobal := 1;
      modoEdicaoAtivo := false;
      livroSelecionadoId := None;
      hiddenId := None;
    }

    /** `atualizarBotoesAcao`: the edit and delete buttons are enabled
        exactly when a book is selected, and then edit mode is on and the
        selected id names a book of the list. */
    function BotoesHabilitados(): (habilitar: bool)
      reads this
      requires Valid()
      ensures habilitar <==> livroSelecionadoId.Some?
      ensures habilitar ==> modoEdicaoAtivo && Find(livros, livroSelecionadoId.value).Some?
    {
      modoEdicaoAtivo && livroSelecionadoId != None
    }

    /** The seed block: two books with the next two ids, in that order. It
        runs once at load time, before any event can select a book. */
    method Semear()
      requires Valid()
      requires livroSelecionadoId == None
      modifies this
      ensures Valid()
      ensures livros == [Livro(old(idGlobal), "Dom Casmurro", "Romance", 1899),
                         Livro(old(idGlobal) + 1, "O Cortiço", "Naturalismo", 1890)]
      ensures idGlobal == old(idGlobal) + 2
      ensures modoEdicaoAtivo == old(modoEdicaoAtivo) && livroSelecionadoId == None
      ensures hiddenId == old(hiddenId)
    {
      var primeiro := Livro(idGlobal, "Dom Casmurro", "Romance", 1899);
      idGlobal := idGlobal + 1;
      var segundo := Livro(idGlobal, "O Cortiço", "Naturalismo", 1890);
      idGlobal := idGlobal + 1;
      livros := [primeiro, segundo];
    }

    /** The toggle button: flips edit mode and clears the selection when
        leaving it. Entering edit mode finds no selection, so afterwards
        there is never one. */
    method AlternarModoEdicao()
      requires Valid()
      modifies this
      ensures Valid()
      ensures modoEdicaoAtivo == !old(modoEdicaoAtivo)
      ensures livroSelecionadoId == None
      ensures livros == old(livros) && idGlobal == old(idGlobal) && hiddenId == old(hiddenId)
    {
      modoEdicaoAtivo := !modoEdicaoAtivo;
      if !modoEdicaoAtivo {
        livroSelecionadoId := None;
      }
    }

    /** A click on the table row showing `livros[i]`: ignored outside edit
        mode; in edit mode it deselects the selected book or selects another. */
    method ClicarLinha(i: int)
      requires Valid()
      requires 0 <= i < |livros|
      modifies this
      ensures Valid()
      ensures !old(modoEdicaoAtivo) ==> livroSelecionadoId == old(livroSelecionadoId)
      ensures old(modoEdicaoAtivo) && old(livroSelecionadoId) == Some(old(livros[i]).id) ==>
                livroSelecionadoId == None
      ensures old(modoEdicaoAtivo) && old(livroSelecionadoId) != Some(old(livros[i]).id) ==>
                livroSelecionadoId == Some(old(livros[i]).id)
      ensures livros == old(livros) && idGlobal == old(idGlobal)
      ensures modoEdicaoAtivo == old(modoEdicaoAtivo) && hiddenId == old(hiddenId)
    {
      if !modoEdicaoAtivo {
        return;
      }
      var livro := livros[i];
      if livroSelecionadoId == Some(livro.id) {
        livroSelecionadoId := None;
      } else {
        livroSelecionadoId := Some(livro.id);
      }
    }

    /** The edit-selected button: with a selection, hands back the selected
        book for the form and puts its id in the hidden target field;
        without one, does nothing. */
    method EditarSelecionado() returns (carregado: Option<Livro>)
      requires Valid()
      modifies this
      ensures Valid()
      ensures old(livroSelecionadoId) == None ==> carregado == None && hiddenId == old(hiddenId)
      ensures old(livroSelecionadoId).Some? ==>
                carregado.Some? && carregado.value in livros &&
                carregado.value.id == old(livroSelecionadoId).value &&
                hiddenId == old(livroSelecionadoId)
      ensures livros == old(livros) && idGlobal == old(idGlobal)
      ensures modoEdicaoAtivo == old(modoEdicaoAtivo)
      ensures livroSelecionadoId == old(livroSelecionadoId)
    {
      carregado := None;
      if livroSelecionadoId == None {
        return;
      }
      carregado := Find(livros, livroSelecionadoId.value);
      if carregado.Some? {
        hiddenId := Some(carregado.value.id);
      }
    }

    /** The delete-selected button: without a selection, does nothing;
        otherwise removes the selected book (and only it), keeps the others
        in order, clears the selection and reports the deletion. */
    method ExcluirSelecionado() returns (msg: Option<Mensagem>)
      requires Valid()
      modifies this
      ensures Valid()
      ensures old(livroSelecionadoId) == None ==>
                msg == None && livros == old(livros) && livroSelecionadoId == None
      ensures old(livroSelecionadoId).Some? ==>
                var k := FindIndex(old(livros), old(livroSelecionadoId).value);
                0 <= k < |old(livros)| &&
                livros == old(livros)[..k] + old(livros)[k + 1..] &&
                msg == Some(LivroExcluido)
      ensures old(livroSelecionadoId).Some? ==> !HasId(livros, old(livroSelecionadoId).value)
      ensures livroSelecionadoId == None
      ensures idGlobal == old(idGlobal) && modoEdicaoAtivo == old(modoEdicaoAtivo)
      ensures hiddenId == old(hiddenId)
    {
      msg := None;
      if livroSelecionadoId == None {
        return;
      }
      var alvo := livroSelecionadoId.value;
      ghost var k := FindIndex(livros, alvo);
      RemoveIdAt(livros, k);
      RemoveIdKeepsIds(livros, alvo, idGlobal);
      livros := RemoveId(livros, alvo);
      livroSelecionadoId := None;
      msg := Some(LivroExcluido);
    }

    /** The submit handler. Invalid input changes nothing. Otherwise: with no
        (or a falsy) target id a new book with the next id is appended; with a
        target id that names a book, that book is replaced in place; with a
        target id that names no book, the list is left alone and no message
        is shown. In the last three cases the target field is cleared. */
    method Enviar(name: string, tipo: string, ano: Option<int>) returns (msg: Option<Mensagem>)
      requires Valid()
      modifies this
      ensures Valid()
      ensures !EntradaValida(name, tipo, ano) ==>
                msg == None && livros == old(livros) && idGlobal == old(idGlobal) &&
                hiddenId == old(hiddenId)
      ensures EntradaValida(name, tipo, ano) && !AlvoDefinido(old(hiddenId)) ==>
                livros == old(livros) + [Livro(old(idGlobal), name, tipo, ano.value)] &&
                idGlobal == old(idGlobal) + 1 &&
                msg == Some(LivroAdicionado)
      ensures EntradaValida(name, tipo, ano) && AlvoDefinido(old(hiddenId)) ==>
                var k := FindIndex(old(livros), old(hiddenId).value);
                idGlobal == old(idGlobal) &&
                (k == -1 ==> livros == old(livros) && msg == None) &&
                (k != -1 ==>
                   livros == old(livros)[k := Livro(old(hiddenId).value, name, tipo, ano.value)] &&
                   msg == Some(LivroEditado))
      ensures EntradaValida(name, tipo, ano) ==> hiddenId == None
      ensures modoEdicaoAtivo == old(modoEdicaoAtivo)
      ensures livroSelecionadoId == old(livroSelecionadoId)
    {
      msg := None;
      if !EntradaValida(name, tipo, ano) {
        return;
      }
      if AlvoDefinido(hiddenId) {
        var id := hiddenId.value;
        var index := FindIndex(livros, id);
        if index != -1 {
          ghost var antes := livros;
          livros := livros[index := Livro(id, name, tipo, ano.value)];
          if livroSelecionadoId.Some? {
            ghost var j :| 0 <= j < |antes| && antes[j].id == livroSelecionadoId.value;
            assert livros[j].id == livroSelecionadoId.value;
          }
          msg := Some(LivroEditado);
        }
      } else {
        ghost var antes := livros;
        livros := livros + [Livro(idGlobal, name, tipo, ano.value)];
        if livroSelecionadoId.Some? {
          ghost var j :| 0 <= j < |antes| && antes[j].id == livroSelecionadoId.value;
          assert livros[j] == antes[j];
        }
        idGlobal := idGlobal + 1;
        msg := Some(LivroAdicionado);
      }
      hiddenId := None;
    }

    /** The cancel button: clears the hidden target field. */
    method CancelarEdicao()
      requires Valid()
      modifies this
      ensures Valid()
      ensures hiddenId == None
      ensures livros == old(livros) && idGlobal == old(idGlobal)
      ensures modoEdicaoAtivo == old(modoEdicaoAtivo)
      ensures livroSelecionadoId == old(livroSelecionadoId)
    {
      hiddenId := None;
    }
  }
}
