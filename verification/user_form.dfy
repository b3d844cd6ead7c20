/**
 * The user submission form: two confirmation checkboxes, one uploaded
 * file, a create call to the backend, and a back action that resets the
 * form. The backend's answers are parameters of the handlers.
 */
module UserForm {
  import opened Wrappers

  const DownloadPrefix: string := "/sfc/servlet.shepherd/document/download/"

  /** An entry of the upload component's `files` list. */
  datatype UploadedFile = UploadedFile(documentId: string)

  /** What `getUserInfo` delivers. */
  datatype UserInfoResult = UserInfo(userName: string, country: string) | UserInfoFailed | UserInfoPending

  /**
   * The `price` of a pricing answer: `null`, a number (carried already
   * formatted by `toFixed(2)`), or anything else (missing, or not a number),
   * on which `toFixed` throws.
   */
  datatype PriceValue = NullPrice | NumberPrice(formatted: string) | UnusablePrice

  /**
   * What `getPricingDataByUserCountry` settles to: an answer object, a
   * `null` answer (reading its `country` throws), or a rejection.
   */
  datatype PricingResult = Priced(country: string, price: PriceValue) | PricedNull | PricingFailed

  /** The pricing promise chain ends in its `catch`: the call was rejected, or its `then` callback threw. */
  predicate ReachesCatch(result: PricingResult)
  {
    result.PricingFailed? || result.PricedNull? || (result.Priced? && result.price.UnusablePrice?)
  }

  /** What `createSelfCertification` resolves to. */
  datatype CreateOutcome = Created(id: string) | CreateFailed

  /** The record sent to `createSelfCertification`. */
  datatype CreatePayload = CreatePayload(
    certificationPeriod: string,
    certificationDate: string,
    country: string,
    comments: string,
    confirmation: bool,
    eSignature: bool,
    contentDocumentId: Option<string>)

  /** The summary shown after a successful submission. */
  datatype SubmittedRecord = SubmittedRecord(
    userName: string,
    country: string,
    certificationPeriod: string,
    certificationDate: string,
    comments: string,
    confirmation: bool,
    eSignature: bool)

  class SelfCertificationUser {
    var showForm: bool
    var submittedRecord: Option<SubmittedRecord>
    var userName: string
    var country: string
    var price: string
    var certificationPeriod: string
    var certificationDate: string
    var comments: string
    var confirmation: bool
    var eSignature: bool
    var recordId: Option<string>
    var uploadedFileId: Option<string>
    var uploadedFileUrl: Option<string>
    var isUploadDisabled: bool

    /**
     * The form's invariant: the download URL is derived from the file id,
     * the upload flag is off exactly while a file is held, and the form is
     * shown exactly while there is no submitted record and no record id.
     */
    ghost predicate Valid()
      reads this
    {
      (uploadedFileId.None? ==> uploadedFileUrl.None?) &&
      (uploadedFileId.Some? ==> uploadedFileUrl == Some(DownloadPrefix + uploadedFileId.value)) &&
      (isUploadDisabled <==> uploadedFileId.None?) &&
      (showForm <==> submittedRecord.None?) &&
      (showForm <==> recordId.None?)
    }

    /** The initial form; `today` is the date part of the current date. */
    constructor (today: string)
      ensures Valid()
      ensures showForm && submittedRecord == None && recordId == None
      ensures userName == "" && country == "" && price == "N/A"
      ensures certificationPeriod == "6 month" && certificationDate == today
      ensures comments == "" && !confirmation && !eSignature
      ensures uploadedFileId == None && uploadedFileUrl == None && isUploadDisabled
    {
      showForm := true;
      submittedRecord := None;
      userName := "";
      country := "";
      price := "N/A";
      certificationPeriod := "6 month";
      certificationDate := today;
      comments := "";
      confirmation := false;
      eSignature := false;
      recordId := None;
      uploadedFileId := None;
      uploadedFileUrl := None;
      isUploadDisabled := true;
    }

    /** `wiredUser`: delivered data sets the name and country; an error or no delivery changes nothing. */
    method WiredUser(result: UserInfoResult)
      requires Valid()
      modifies this`userName, this`country
      ensures Valid()
      ensures result.UserInfo? ==> userName == result.userName && country == result.country
      ensures !result.UserInfo? ==> userName == old(userName) && country == old(country)
    {
      if result.UserInfo? {
        userName := result.userName;
        country := result.country;
      }
    }

    /**
     * `connectedCallback`'s pricing call. The `then` callback sets the
     * country before it formats the price; when the callback throws, the
     * `catch` chained after it sets both fields to "N/A", overwriting that
     * country.
     */
    method PricingLoaded(result: PricingResult)
      requires Valid()
      modifies this`country, this`price
      ensures Valid()
      ensures ReachesCatch(result) ==> country == "N/A" && price == "N/A"
      ensures !ReachesCatch(result) ==>
        country == result.country && price == (if result.price.NumberPrice? then result.price.formatted else "N/A")
    {
      var failed := false;
      if result.Priced? {
        country := result.country;
        match result.price {
          case NumberPrice(f) => price := f;
          case NullPrice => price := "N/A";
          case UnusablePrice => failed := true;
        }
      } else {
        failed := true;
      }
      if failed {
        country := "N/A";
        price := "N/A";
      }
    }

    /** `handleCommentsChange`. */
    method HandleCommentsChange(value: string)
      requires Valid()
      modifies this`comments
      ensures Valid() && comments == value
    {
      comments := value;
    }

    /** `handleConfirmationChange`: the flag follows the checkbox and nothing else changes. */
    method HandleConfirmationChange(checked: bool)
      requires Valid()
      modifies this`confirmation
      ensures Valid() && confirmation == checked
    {
      confirmation := checked;
    }

    /** `handleESignatureChange`: the flag follows the checkbox and nothing else changes. */
    method HandleESignatureChange(checked: bool)
      requires Valid()
      modifies this`eSignature
      ensures Valid() && eSignature == checked
    {
      eSignature := checked;
    }

    /**
     * `handleUploadFinished`: the first uploaded file becomes the form's
     * file, with its download URL, and enables submission; an empty list
     * (the upload component's missing list included) changes nothing.
     */
    method HandleUploadFinished(files: seq<UploadedFile>)
      requires Valid()
      modifies this`uploadedFileId, this`uploadedFileUrl, this`isUploadDisabled
      ensures Valid()
      ensures files == [] ==> unchanged(this)
      ensures files != [] ==>
        uploadedFileId == Some(files[0].documentId) &&
        uploadedFileUrl == Some(DownloadPrefix + files[0].documentId) &&
        !isUploadDisabled
    {
      if |files| > 0 {
        var file := files[0];
        uploadedFileId := Some(file.documentId);
        uploadedFileUrl := Some(DownloadPrefix + file.documentId);
        isUploadDisabled := false;
      }
    }

    /**
     * `handleSubmit`: without both checkboxes, or without an uploaded file,
     * no create call is made and nothing changes. Otherwise the create call
     * carries the form's fields and file id; on success the form records the
     * new id and a snapshot of what was submitted and hides itself, on
     * failure nothing changes. `outcome` is the backend's answer and `call`
     * the payload sent, if any.
     */
    method HandleSubmit(outcome: CreateOutcome) returns (call: Option<CreatePayload>)
      requires Valid()
      modifies this`recordId, this`showForm, this`submittedRecord
      ensures Valid()
      ensures !(confirmation && eSignature) ==> call == None && unchanged(this)
      ensures confirmation && eSignature && uploadedFileUrl.None? ==> call == None && unchanged(this)
      ensures confirmation && eSignature && uploadedFileUrl.Some? ==>
        call == Some(CreatePayload(certificationPeriod, certificationDate, country, comments,
                                   confirmation, eSignature, uploadedFileId))
      ensures call.Some? && outcome.CreateFailed? ==> unchanged(this)
      ensures call.Some? && outcome.Created? ==>
        recordId == Some(outcome.id) && !showForm &&
        submittedRecord == Some(SubmittedRecord(userName, country, certificationPeriod,
                                                certificationDate, comments, confirmation, eSignature))
    {
      if !confirmation || !eSignature {
        return None;
      }
      if uploadedFileUrl.None? {
        return None;
      }
      call := Some(CreatePayload(certificationPeriod, certificationDate, country, comments,
                                 confirmation, eSignature, uploadedFileId));
      match outcome {
        case Created(id) =>
          recordId := Some(id);
          showForm := false;
          submittedRecord := Some(SubmittedRecord(userName, country, certificationPeriod,
                                                  certificationDate, comments, confirmation, eSignature));
        case CreateFailed =>
      }
    }

    /**
     * `handleBack`: shows an empty form again (no comments, checkboxes off,
     * no file, no record), keeping the user's name, country, price, period
     * and date.
     */
    method HandleBack()
      requires Valid()
      modifies this`showForm, this`submittedRecord, this`comments, this`confirmation,
               this`eSignature, this`uploadedFileId, this`uploadedFileUrl,
               this`isUploadDisabled, this`recordId
      ensures Valid()
      ensures showForm && submittedRecord == None && comments == ""
      ensures !confirmation && !eSignature
      ensures uploadedFileId == None && uploadedFileUrl == None && isUploadDisabled
      ensures recordId == None
    {
      showForm := true;
      submittedRecord := None;
      comments := "";
      confirmation := false;
      eSignature := false;
      uploadedFileId := None;
      uploadedFileUrl := None;
      isUploadDisabled := true;
      recordId := None;
    }
  }
}
