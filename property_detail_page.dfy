/** The detail page of one property: the lookup by route id, the image
    gallery with its thumbnails, and the contact form modal. */
module PropertyDetailPage {
  import opened Seqs
  import opened Catalog

  // ---------------------------------------------------------------------
  // Lookup

  /** `data.properties.find(p => p.id === id) || null`: the first record with
      that id, `None` for null when there is none. */
  function FindById(catalog: seq<Property>, id: string): (r: Option<Property>)
    ensures r.None? <==> forall p :: p in catalog ==> p.id != id
    ensures r.Some? ==> r.value in catalog && r.value.id == id
  {
    Find(catalog, (p: Property) => p.id == id)
  }

  /** The record found is the first one with the id: whatever precedes it in
      the catalog has another id. */
  lemma FindByIdFirst(catalog: seq<Property>, id: string, i: nat)
    requires i < |catalog| && catalog[i].id == id
    requires forall j :: 0 <= j < i ==> catalog[j].id != id
    ensures FindById(catalog, id) == Some(catalog[i])
  {
    var r := Find(catalog, (p: Property) => p.id == id);
    assert r.Some?;
    var k :| 0 <= k < |catalog| && catalog[k] == r.value && catalog[k].id == id &&
             forall j :: 0 <= j < k ==> catalog[j].id != id;
    assert k == i;
  }

  // ---------------------------------------------------------------------
  // Gallery

  /** `allImages`: the main image followed by the others. The main image is
      there once more when the other images repeat it. */
  function AllImages(p: Property): (r: seq<string>)
    ensures |r| == |p.images| + 1
    ensures r[0] == p.mainImage && r[1..] == p.images
    ensures multiset(r)[p.mainImage] == multiset(p.images)[p.mainImage] + 1
  {
    [p.mainImage] + p.images
  }

  /** The thumbnail strip is drawn when the gallery has more than one image. */
  predicate ShowsThumbnails(gallery: seq<string>) {
    |gallery| > 1
  }

  /** One thumbnail button: the position it selects and the image it shows. */
  datatype Thumbnail = Thumbnail(index: nat, image: string)

  /** The buttons of the thumbnail strip, one per gallery position. */
  function Thumbnails(gallery: seq<string>): seq<Thumbnail> {
    if ShowsThumbnails(gallery) then seq(|gallery|, k requires 0 <= k < |gallery| => Thumbnail(k, gallery[k]))
    else []
  }

  /** A property has a thumbnail strip exactly when it lists further images. */
  lemma ThumbnailsIffMoreImages(p: Property)
    ensures Thumbnails(AllImages(p)) != [] <==> p.images != []
  {
  }

  // ---------------------------------------------------------------------
  // Contact form

  datatype ContactForm = ContactForm(name: string, email: string, phone: string, message: string)

  const DefaultMessage: string := "I am interested in this property. Please contact me with more details."

  /** The form as it first appears: empty fields and the default message. */
  const BlankContactForm: ContactForm := ContactForm("", "", "", DefaultMessage)

  datatype ContactField = Name | Email | Phone | Message

  /** An input's `onChange`: `prev => ({ ...prev, [field]: value })`. */
  function EditContact(form: ContactForm, field: ContactField, value: string): (r: ContactForm)
    ensures FieldOf(r, field) == value
    ensures forall g :: g != field ==> FieldOf(r, g) == FieldOf(form, g)
  {
    match field
    case Name => form.(name := value)
    case Email => form.(email := value)
    case Phone => form.(phone := value)
    case Message => form.(message := value)
  }

  function FieldOf(form: ContactForm, field: ContactField): string {
    match field
    case Name => form.name
    case Email => form.email
    case Phone => form.phone
    case Message => form.message
  }

  // ---------------------------------------------------------------------
  // Page state

  /** The page's state hooks. */
  datatype DetailState = DetailState(
    property: Option<Property>,
    currentImageIndex: int,
    showContactForm: bool,
    contactForm: ContactForm)

  /** The state on mount, before the catalog arrives. */
  const Initial: DetailState := DetailState(None, 0, false, BlankContactForm)

  /** The catalog arrived: the found record, or null, is stored. */
  function Loaded(s: DetailState, catalog: seq<Property>, id: string): (r: DetailState)
    ensures r.property == FindById(catalog, id)
    ensures r.currentImageIndex == s.currentImageIndex && r.showContactForm == s.showContactForm &&
            r.contactForm == s.contactForm
  {
    s.(property := FindById(catalog, id))
  }

  /** A thumbnail's `onClick`: `setCurrentImageIndex(index)`. */
  function SelectImage(s: DetailState, index: int): (r: DetailState)
    ensures r.currentImageIndex == index
    ensures r.property == s.property && r.showContactForm == s.showContactForm &&
            r.contactForm == s.contactForm
  {
    s.(currentImageIndex := index)
  }

  /** "Contact Agent" opens the modal; the close and cancel buttons close it. */
  function SetContactFormShown(s: DetailState, shown: bool): (r: DetailState)
    ensures r.showContactForm == shown
    ensures r.property == s.property && r.currentImageIndex == s.currentImageIndex &&
            r.contactForm == s.contactForm
  {
    s.(showContactForm := shown)
  }

  /** A field of the contact form was edited. */
  function ContactChanged(s: DetailState, field: ContactField, value: string): (r: DetailState)
    ensures FieldOf(r.contactForm, field) == value
    ensures forall g :: g != field ==> FieldOf(r.contactForm, g) == FieldOf(s.contactForm, g)
    ensures r.property == s.property && r.currentImageIndex == s.currentImageIndex &&
            r.showContactForm == s.showContactForm
  {
    s.(contactForm := EditContact(s.contactForm, field, value))
  }

  /** `handleContactSubmit`: the modal closes and the form is back to how it
      first appeared, whatever was typed; the rest of the page is untouched. */
  function HandleContactSubmit(s: DetailState): (r: DetailState)
    ensures !r.showContactForm
    ensures r.contactForm == Initial.contactForm
    ensures r.property == s.property && r.currentImageIndex == s.currentImageIndex
  {
    s.(showContactForm := false, contactForm := BlankContactForm)
  }

  /** Submitting after any edits leaves no trace of them. */
  lemma SubmitForgetsEdits(s: DetailState, field: ContactField, value: string)
    ensures HandleContactSubmit(ContactChanged(s, field, value)) == HandleContactSubmit(s)
  {
  }

  // ---------------------------------------------------------------------
  // What is drawn

  datatype View =
    | LoadingView
    | DetailView(property: Property, shownImage: Option<string>, thumbnails: seq<Thumbnail>,
                 highlighted: Option<nat>, contactFormOpen: bool)

  /** `allImages[currentImageIndex]`, `None` for an index outside the gallery. */
  function ImageAt(gallery: seq<string>, index: int): Option<string> {
    if 0 <= index < |gallery| then Some(gallery[index]) else None
  }

  /** The thumbnail with the highlighted border, `currentImageIndex === index`. */
  function Highlighted(thumbnails: seq<Thumbnail>, index: int): Option<nat> {
    if 0 <= index < |thumbnails| then Some(index) else None
  }

  /** The page: the loading view while no record is held, else the detail. */
  function Render(s: DetailState): View {
    match s.property
    case None => LoadingView
    case Some(p) =>
      var gallery := AllImages(p);
      var thumbs := Thumbnails(gallery);
      DetailView(p, ImageAt(gallery, s.currentImageIndex), thumbs,
                 Highlighted(thumbs, s.currentImageIndex), s.showContactForm)
  }

  /** Without a record, found or not yet, only the loading view is drawn, and
      a record that is held is always drawn in detail. */
  lemma RenderLoadingIffNoRecord(s: DetailState)
    ensures Render(s).LoadingView? <==> s.property.None?
    ensures s.property.Some? ==> Render(s).property == s.property.value
  {
  }

  /** An id that no record has leaves the page on the loading view. */
  lemma UnknownIdStaysLoading(catalog: seq<Property>, id: string)
    requires forall p :: p in catalog ==> p.id != id
    ensures Render(Loaded(Initial, catalog, id)) == LoadingView
  {
  }

  /** When the record arrives the main image is shown, from the initial index 0. */
  lemma LoadedShowsMainImage(catalog: seq<Property>, id: string, p: Property)
    requires FindById(catalog, id) == Some(p)
    ensures Render(Loaded(Initial, catalog, id)).shownImage == Some(p.mainImage)
  {
  }

  /** Clicking a thumbnail shows that thumbnail's image and highlights that
      thumbnail only. */
  lemma ClickShowsThumbnail(s: DetailState, p: Property, k: nat)
    requires s.property == Some(p)
    requires k < |Thumbnails(AllImages(p))|
    ensures var t := Thumbnails(AllImages(p))[k];
            var v := Render(SelectImage(s, t.index));
            v.shownImage == Some(t.image) && v.highlighted == Some(k)
  {
  }
}
