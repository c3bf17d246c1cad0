/** The image each catalog page shows for a product: the catalog card builds
    its path from the record's `imagen`, the detail page takes the detail
    endpoint's `imagen_url`. Both fall back to the relative path of the
    default image. */
module CatalogPage {
  import opened JsValue
  import Catalog
  import Upload

  const PageDefaultImage := "img/default.png"

  /** The catalog card's image: the uploaded file when `imagen` is truthy,
      the default image otherwise. The text "null" counts as truthy here. */
  function CardImage(imagen: Value, numText: real -> string): (src: string)
    ensures src != ""
    ensures src == PageDefaultImage <==> !Truthy(imagen)
    ensures Truthy(imagen) ==> src == Upload.UploadsPrefix + TemplateText(imagen, numText)
  {
    if Truthy(imagen) then
      var src := Upload.UploadsPrefix + TemplateText(imagen, numText);
      assert src[0] != PageDefaultImage[0];
      src
    else PageDefaultImage
  }

  /** The detail page's image: `imagen_url` itself when truthy, the default
      image otherwise; never falsy. */
  function DetailImage(imagenUrl: Value): (src: Value)
    ensures Truthy(src)
    ensures Truthy(imagenUrl) ==> src == imagenUrl
    ensures !Truthy(imagenUrl) ==> src == Str(PageDefaultImage)
  {
    Or(imagenUrl, Str(PageDefaultImage))
  }

  /** For a product read from the detail endpoint, the detail page shows the
      same image the catalog card shows for that record. */
  lemma DetailPageMatchesCard(imagen: Value, numText: real -> string)
    ensures DetailImage(Catalog.DetailImagenUrl(imagen, numText)) == Str(CardImage(imagen, numText))
  {
  }

  /** The card does not use the list endpoint's `imagen_url`, and the two
      differ for every record without an uploaded image and for the text
      "null"; they agree only for a real file name. */
  lemma CardVersusListUrl(imagen: Value, numText: real -> string)
    ensures CardImage(imagen, numText) == Catalog.ListImagenUrl(imagen, numText)
            <==> Truthy(imagen) && imagen != Str("null")
  {
  }
}
