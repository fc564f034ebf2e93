/** Result and error values returned by the controllers, and record identifiers.
    Each error names the response the handler sends; the HTTP status is in the comment. */
module Outcomes {

  datatype Option<+T> = None | Some(value: T)

  datatype Error =
    // withdrawalController / adminController
    | BelowMinimum              // 400 Minimum withdrawal amount is 300 rupees
    | InsufficientBalance       // 400 Insufficient balance
    | MissingAccountDetails     // 400 Account details are required
    | WithdrawalNotFound        // 404
    | UserNotFound              // 404
    | PackageNotFound           // 404
    // taskController
    | NoActivePackage           // 403 No active package / Please purchase a package
    | TaskNotFound              // 404 Task not found (catalog task or attempt record)
    | DailyLimitReached         // 403 Daily task limit reached
    | AlreadyStartedToday       // 400 Task already started or completed today
    | NotOwner                  // 403 Unauthorized
    | AlreadyCompleted          // 400 Task already completed
    | TaskReferenceMissing      // 500 the attempt's catalog task was deleted, so reading its title fails
    | MissingTitleOrDescription // 400 Title and description are required
    | EmptyTitle                // 400 Title cannot be empty
    | EmptyDescription          // 400 Description cannot be empty
    // authController
    | UserExists                // 400 User already exists
    | InvalidReferralCode       // 400 Invalid referral code
    | InvalidCredentials        // 401 Invalid credentials
    | AccountDeactivated        // 403 Account is deactivated
    // packageController
    | MissingPaymentProof       // 400 Please provide payment proof
    | MissingRequiredField      // 500 schema validation: a required string is missing or empty
    | DuplicatePackageName      // 500 unique index on Package.name

  datatype Result<+T> = Ok(value: T) | Err(error: Error)

  /** JavaScript truthiness of an optional string: absent and "" are both falsy. */
  predicate Truthy(s: Option<string>) {
    s.Some? && s.value != ""
  }
}

/** Record identifiers: the position of the record in its collection. */
module Ids {
  type UserId = nat
  type TaskId = nat
  type PackageId = nat
  type UserTaskId = nat
  type WithdrawalId = nat
}
