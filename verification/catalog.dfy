/** The product API of the backend server: the list and detail endpoints
    with their two `imagen_url` derivations, and create, update and delete
    over the product table.

    The table is a map from integer key to product record, together with the
    largest key ever handed out (the AUTOINCREMENT counter). A request body
    has the same six properties as a record; a property the client did not
    send is `Undefined`. A route parameter such as the `42` of
    `/producto/42` is text, and reaches the table through `Decimal.Parse`. */
module Catalog {
  import opened JsValue
  import Decimal
  import Upload

  datatype Product = Product(
    nombre: Value,
    descripcion: Value,
    precio: Value,
    stock: Value,
    categoria: Value,
    imagen: Value)

  /** A decoded JSON request body; absent properties are `Undefined`. */
  type Body = Product

  datatype Db = Db(rows: map<int, Product>, lastId: int)

  /** The updatable columns, in the order the update handler tests them. */
  datatype Column = Nombre | Descripcion | Precio | Stock | Categoria | Imagen

  const Columns: seq<Column> := [Nombre, Descripcion, Precio, Stock, Categoria, Imagen]

  function Rank(c: Column): nat {
    match c
    case Nombre => 0
    case Descripcion => 1
    case Precio => 2
    case Stock => 3
    case Categoria => 4
    case Imagen => 5
  }

  function Get(p: Product, c: Column): Value {
    match c
    case Nombre => p.nombre
    case Descripcion => p.descripcion
    case Precio => p.precio
    case Stock => p.stock
    case Categoria => p.categoria
    case Imagen => p.imagen
  }

  function Set(p: Product, c: Column, v: Value): (q: Product)
    ensures Get(q, c) == v
    ensures forall d :: d != c ==> Get(q, d) == Get(p, d)
  {
    match c
    case Nombre => p.(nombre := v)
    case Descripcion => p.(descripcion := v)
    case Precio => p.(precio := v)
    case Stock => p.(stock := v)
    case Categoria => p.(categoria := v)
    case Imagen => p.(imagen := v)
  }

  /** A record as the table holds it: `undefined` is never written. */
  predicate Stored(p: Product) {
    forall c :: Get(p, c) != Undefined
  }

  /** The table invariant: every key was handed out by the counter, and
      every record is fully defined. */
  predicate Valid(db: Db) {
    forall k :: k in db.rows ==> k <= db.lastId && Stored(db.rows[k])
  }

  /** The row a route parameter addresses, if any. */
  function Key(idText: string): Option<int> {
    Decimal.Parse(idText)
  }

  predicate Present(db: Db, idText: string) {
    Key(idText).Some? && Key(idText).value in db.rows
  }

  // ---------------------------------------------------------------------
  // Replies

  const NombreRequired := "El campo 'nombre' es requerido."
  const NothingToUpdate := "Nada para actualizar."
  const NotFoundMessage := "Producto no encontrado."

  datatype Reply =
    | Created(id: int)
    | Updated
    | Deleted
    | BadRequest(error: string)
    | NotFound(error: string)

  function Status(r: Reply): int {
    match r
    case Created(_) => 201
    case Updated => 200
    case Deleted => 200
    case BadRequest(_) => 400
    case NotFound(_) => 404
  }

  datatype Outcome = Outcome(reply: Reply, db: Db)

  // ---------------------------------------------------------------------
  // GET /productos and GET /producto/:id

  const DefaultImage := "/img/default.png"

  datatype Row = Row(id: int, product: Product)

  /** One element of the list endpoint's answer: the row plus `imagen_url`. */
  datatype Listed = Listed(id: int, product: Product, imagenUrl: string)

  /** The list endpoint's `imagen_url`: the uploaded file when `imagen` is
      truthy and not the text "null", the default image otherwise; never
      empty. */
  function ListImagenUrl(imagen: Value, numText: real -> string): (url: string)
    ensures url != ""
    ensures url == DefaultImage <==> !Truthy(imagen) || imagen == Str("null")
    ensures Truthy(imagen) && imagen != Str("null") ==>
              url == Upload.UploadsPrefix + TemplateText(imagen, numText)
  {
    if Truthy(imagen) && imagen != Str("null") && imagen != Str("") then
      var url := Upload.UploadsPrefix + TemplateText(imagen, numText);
      assert url[1] != DefaultImage[1];
      url
    else DefaultImage
  }

  /** The list endpoint maps every row the table returned, in the order it
      returned them, keeping each row and adding its image URL. */
  function ListProducts(rows: seq<Row>, numText: real -> string): (out: seq<Listed>)
    ensures |out| == |rows|
    ensures forall i :: 0 <= i < |rows| ==>
              out[i].id == rows[i].id && out[i].product == rows[i].product
              && out[i].imagenUrl == ListImagenUrl(rows[i].product.imagen, numText)
    ensures forall i :: 0 <= i < |out| ==> out[i].imagenUrl != ""
  {
    seq(|rows|, i requires 0 <= i < |rows| =>
      Listed(rows[i].id, rows[i].product, ListImagenUrl(rows[i].product.imagen, numText)))
  }

  /** The detail endpoint's `imagen_url`: the uploaded file whenever
      `imagen` is truthy (the text "null" included), JSON `null` otherwise. */
  function DetailImagenUrl(imagen: Value, numText: real -> string): (url: Value)
    ensures url == Null <==> !Truthy(imagen)
    ensures url != Null ==> url == Str(Upload.UploadsPrefix + TemplateText(imagen, numText))
  {
    if Truthy(imagen) then Str(Upload.UploadsPrefix + TemplateText(imagen, numText)) else Null
  }

  datatype Detail = Detail(id: int, product: Product, imagenUrl: Value)

  /** The detail endpoint. A missing row is not an error: the row is
      `undefined`, which `res.json` sends as status 200 with an empty body;
      it is modelled as `None`. */
  function GetProduct(db: Db, idText: string, numText: real -> string): (r: Option<Detail>)
    ensures r.Some? <==> Present(db, idText)
    ensures r.Some? ==>
              r.value.id == Key(idText).value
              && r.value.product == db.rows[r.value.id]
              && r.value.imagenUrl == DetailImagenUrl(r.value.product.imagen, numText)
  {
    match Key(idText)
    case Some(k) =>
      if k in db.rows then
        Some(Detail(k, db.rows[k], DetailImagenUrl(db.rows[k].imagen, numText)))
      else None
    case None => None
  }

  /** The two endpoints disagree in exactly two ways: a falsy `imagen`
      gives the default image in the list but `null` in the detail, and the
      text "null" gives the default image in the list but "/uploads/null"
      in the detail. Otherwise both name the same uploaded file. */
  lemma ListDetailAsymmetry(imagen: Value, numText: real -> string)
    ensures !Truthy(imagen) ==>
              ListImagenUrl(imagen, numText) == DefaultImage && DetailImagenUrl(imagen, numText) == Null
    ensures imagen == Str("null") ==>
              ListImagenUrl(imagen, numText) == DefaultImage
              && DetailImagenUrl(imagen, numText) == Str("/uploads/null")
    ensures Truthy(imagen) && imagen != Str("null") ==>
              DetailImagenUrl(imagen, numText) == Str(ListImagenUrl(imagen, numText))
  {
  }

  // ---------------------------------------------------------------------
  // POST /productos

  /** The record the create handler inserts: `nombre` as given, every other
      property as given when truthy and its default otherwise. */
  function NewRecord(body: Body): Product {
    Product(
      body.nombre,
      Or(body.descripcion, Str("")),
      Or(body.precio, Num(0.0)),
      Or(body.stock, Num(0.0)),
      Or(body.categoria, Str("")),
      Or(body.imagen, Str("")))
  }

  /** Create: 400 and no change when `nombre` is falsy (missing, null, empty
      or 0); otherwise 201 with a key the table did not hold, every other
      record untouched, and the defaults applied to falsy properties. */
  function Create(db: Db, body: Body): (o: Outcome)
    requires Valid(db)
    ensures Valid(o.db)
    ensures !Truthy(body.nombre) ==> o.reply == BadRequest(NombreRequired) && o.db == db
    ensures Truthy(body.nombre) ==>
              o.reply.Created? && o.reply.id !in db.rows
              && o.db.rows.Keys == db.rows.Keys + {o.reply.id}
              && (forall k :: k in db.rows ==> o.db.rows[k] == db.rows[k])
    ensures o.reply.Created? ==>
              var p := o.db.rows[o.reply.id];
              && p.nombre == body.nombre
              && p.descripcion == (if Truthy(body.descripcion) then body.descripcion else Str(""))
              && p.precio == (if Truthy(body.precio) then body.precio else Num(0.0))
              && p.stock == (if Truthy(body.stock) then body.stock else Num(0.0))
              && p.categoria == (if Truthy(body.categoria) then body.categoria else Str(""))
              && p.imagen == (if Truthy(body.imagen) then body.imagen else Str(""))
  {
    if !Truthy(body.nombre) then
      Outcome(BadRequest(NombreRequired), db)
    else
      var id := db.lastId + 1;
      var p := NewRecord(body);
      assert Get(p, Nombre) != Undefined;
      assert Stored(p);
      Outcome(Created(id), Db(db.rows[id := p], id))
  }

  /** The example of a create with only a name: every default is applied. */
  lemma CreateNameOnly(db: Db)
    requires Valid(db)
    ensures var o := Create(db, Product(Str("Lapiz"), Undefined, Undefined, Undefined, Undefined, Undefined));
            && Status(o.reply) == 201
            && o.db.rows[o.reply.id] == Product(Str("Lapiz"), Str(""), Num(0.0), Num(0.0), Str(""), Str(""))
  {
  }

  // ---------------------------------------------------------------------
  // PUT /producto/:id

  /** What the update handler builds before touching the table: the
      supplied columns of its SET list and the values bound to them, with
      the route parameter appended for the WHERE clause. */
  datatype Plan = Plan(fields: seq<Column>, values: seq<Value>)

  predicate Ascending(cs: seq<Column>) {
    forall i, j :: 0 <= i < j < |cs| ==> Rank(cs[i]) < Rank(cs[j])
  }

  /** The columns of `cs` whose property the body supplies (is not
      `undefined`, even when it is `null` or empty), in the order of `cs`. */
  function Supplied(body: Body, cs: seq<Column>): (fields: seq<Column>)
    ensures forall c :: c in fields <==> c in cs && Get(body, c) != Undefined
    ensures Ascending(cs) ==> Ascending(fields)
  {
    if cs == [] then []
    else
      var rest := Supplied(body, cs[1..]);
      assert Ascending(cs) ==> forall c :: c in rest ==> Rank(cs[0]) < Rank(c);
      if Get(body, cs[0]) != Undefined then [cs[0]] + rest else rest
  }

  /** The update handler's field and value lists. A column is in the SET
      list iff its property is not `undefined`; the columns keep the fixed
      order nombre, descripcion, precio, stock, categoria, imagen; each value
      is the property of the column at the same position; the route
      parameter is the one extra value, at the end. */
  function AssembleUpdate(body: Body, idText: string): (plan: Plan)
    ensures forall c :: c in plan.fields <==> Get(body, c) != Undefined
    ensures Ascending(plan.fields)
    ensures |plan.values| == |plan.fields| + 1
    ensures forall i :: 0 <= i < |plan.fields| ==> plan.values[i] == Get(body, plan.fields[i])
    ensures plan.values[|plan.fields|] == Str(idText)
  {
    assert Ascending(Columns);
    assert forall c :: c in Columns by {
      forall c ensures c in Columns {
        assert Columns[Rank(c)] == c;
      }
    }
    var fields := Supplied(body, Columns);
    var values := seq(|fields|, i requires 0 <= i < |fields| => Get(body, fields[i]));
    var all := values + [Str(idText)];
    assert forall i :: 0 <= i < |fields| ==> all[i] == values[i];
    Plan(fields, all)
  }

  /** The effect of `UPDATE productos SET f1 = ?, f2 = ?, ...` on one row:
      each listed column takes the value bound at the same position. */
  function ApplySet(p: Product, fields: seq<Column>, values: seq<Value>): Product
    requires |values| >= |fields|
    decreases |fields|
  {
    if fields == [] then p else ApplySet(Set(p, fields[0], values[0]), fields[1..], values[1..])
  }

  /** A record patched by a body: a column changes to the supplied property
      exactly when the body supplies it, and is kept otherwise. */
  predicate Patched(before: Product, after: Product, body: Body) {
    forall c :: Get(after, c) == (if Get(body, c) != Undefined then Get(body, c) else Get(before, c))
  }

  lemma {:induction false} ApplySetColumns(p: Product, body: Body, fields: seq<Column>, values: seq<Value>)
    requires |values| >= |fields|
    requires forall i :: 0 <= i < |fields| ==> values[i] == Get(body, fields[i])
    ensures forall c :: Get(ApplySet(p, fields, values), c) == (if c in fields then Get(body, c) else Get(p, c))
    decreases |fields|
  {
    if fields != [] {
      var q := Set(p, fields[0], values[0]);
      forall i | 0 <= i < |fields| - 1
        ensures values[1..][i] == Get(body, fields[1..][i])
      {
        assert values[1..][i] == values[i + 1];
      }
      ApplySetColumns(q, body, fields[1..], values[1..]);
      forall c
        ensures Get(ApplySet(p, fields, values), c) == (if c in fields then Get(body, c) else Get(p, c))
      {
        assert c in fields <==> c == fields[0] || c in fields[1..];
      }
    }
  }

  /** Running the assembled statement on a record patches it by the body:
      the SET list changes the supplied columns and no others. */
  lemma AssembledUpdatePatches(p: Product, body: Body, idText: string)
    ensures var plan := AssembleUpdate(body, idText);
            Patched(p, ApplySet(p, plan.fields, plan.values), body)
  {
    var plan := AssembleUpdate(body, idText);
    ApplySetColumns(p, body, plan.fields, plan.values);
  }

  /** Update: 400 when the body supplies no column, whatever the id and
      before the table is consulted; 404 and no change when no row has the
      key; otherwise 200, the same keys, every other record untouched, and
      the addressed record patched by the body. */
  function Update(db: Db, idText: string, body: Body): (o: Outcome)
    requires Valid(db)
    ensures Valid(o.db)
    ensures (forall c :: Get(body, c) == Undefined) ==>
              o.reply == BadRequest(NothingToUpdate) && o.db == db
    ensures (exists c :: Get(body, c) != Undefined) && !Present(db, idText) ==>
              o.reply == NotFound(NotFoundMessage) && o.db == db
    ensures (exists c :: Get(body, c) != Undefined) && Present(db, idText) ==>
              var k := Key(idText).value;
              && o.reply == Updated
              && o.db.rows.Keys == db.rows.Keys
              && o.db.lastId == db.lastId
              && (forall j :: j in db.rows && j != k ==> o.db.rows[j] == db.rows[j])
              && Patched(db.rows[k], o.db.rows[k], body)
  {
    var plan := AssembleUpdate(body, idText);
    if |plan.fields| == 0 then
      assert forall c :: Get(body, c) == Undefined;
      Outcome(BadRequest(NothingToUpdate), db)
    else
      assert Get(body, plan.fields[0]) != Undefined;
      match Key(idText)
      case None => Outcome(NotFound(NotFoundMessage), db)
      case Some(k) =>
        if k !in db.rows then Outcome(NotFound(NotFoundMessage), db)
        else
          var p := ApplySet(db.rows[k], plan.fields, plan.values);
          AssembledUpdatePatches(db.rows[k], body, idText);
          assert Stored(p) by {
            forall c ensures Get(p, c) != Undefined {
              assert Stored(db.rows[k]);
            }
          }
          Outcome(Updated, Db(db.rows[k := p], db.lastId))
  }

  // ---------------------------------------------------------------------
  // DELETE /producto/:id

  /** Delete: the addressed key disappears and nothing else changes; 404
      and no change when no row has the key. */
  function Delete(db: Db, idText: string): (o: Outcome)
    requires Valid(db)
    ensures Valid(o.db)
    ensures o.db.lastId == db.lastId
    ensures Present(db, idText) ==>
              o.reply == Deleted
              && o.db.rows.Keys == db.rows.Keys - {Key(idText).value}
              && (forall j :: j in o.db.rows ==> o.db.rows[j] == db.rows[j])
    ensures !Present(db, idText) ==> o.reply == NotFound(NotFoundMessage) && o.db == db
  {
    match Key(idText)
    case Some(k) =>
      if k in db.rows then Outcome(Deleted, Db(db.rows - {k}, db.lastId))
      else Outcome(NotFound(NotFoundMessage), db)
    case None => Outcome(NotFound(NotFoundMessage), db)
  }

  /** Deleting the same id twice: the second attempt answers 404. */
  lemma DeleteTwice(db: Db, idText: string)
    requires Valid(db)
    requires Present(db, idText)
    ensures var first := Delete(db, idText);
            && Status(first.reply) == 200
            && Status(Delete(first.db, idText).reply) == 404
            && Delete(first.db, idText).db == first.db
  {
  }

  /** A created record is then found by the detail endpoint under the text
      of its new id, with exactly the stored fields. */
  lemma CreateThenGet(db: Db, body: Body, numText: real -> string)
    requires Valid(db)
    requires Truthy(body.nombre)
    ensures var o := Create(db, body);
            var d := GetProduct(o.db, Decimal.Show(o.reply.id), numText);
            d.Some? && d.value.id == o.reply.id && d.value.product == NewRecord(body)
  {
    var o := Create(db, body);
    Decimal.ParseShow(o.reply.id);
  }
}
